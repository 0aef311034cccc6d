/** Runs that show that the limits of the address tree are reached. */
module TreeWitnesses {
  import opened Words
  import opened TreeSpec
  import opened TreeRuns
  import opened TreeLimits

  // ---- insertions that displace nothing ----

  function One(a: nat): Mapping<int> {
    Mapping(0, a, a)
  }

  function Leaf(a: nat): Tree<int> {
    Bin(Nil, One(a), Nil)
  }

  /** The range is hung into the free slot where its walk ends. */
  function Hang(t: Tree<int>, m: Mapping<int>, semi: int, level: nat): Tree<int>
    decreases t
  {
    if t.Nil? then Bin(Nil, m, Nil)
    else if level == 0 then t
    else if m.hi < semi then Bin(Hang(t.left, m, MinSemi(semi, level), level - 1), t.item, t.right)
    else Bin(t.left, t.item, Hang(t.right, m, MaxSemi(semi, level), level - 1))
  }

  /** The walk ends in a free slot, and no occupied slot on it has a midpoint that the range covers. */
  predicate Hangs(t: Tree<int>, m: Mapping<int>, semi: int, level: nat)
    decreases t
  {
    t.Bin? ==>
      && level > 0 && !Covers(m, semi)
      && if m.hi < semi then Hangs(t.left, m, MinSemi(semi, level), level - 1)
         else Hangs(t.right, m, MaxSemi(semi, level), level - 1)
  }

  lemma {:induction false} HangInserts(t: Tree<int>, m: Mapping<int>, semi: int, level: nat)
    requires Hangs(t, m, semi, level)
    ensures Insert(t, m, semi, level) == Hang(t, m, semi, level) && Fits(t, m, semi, level)
    decreases t
  {
    hide Reinsert, AllFit;
    if t.Bin? {
      if m.hi < semi {
        HangInserts(t.left, m, MinSemi(semi, level), level - 1);
      } else {
        HangInserts(t.right, m, MaxSemi(semi, level), level - 1);
      }
    }
  }

  predicate Misses(t: Tree<int>, m: Mapping<int>) {
    t.Bin? ==> !Overlaps(m, t.item) && Misses(t.left, m) && Misses(t.right, m)
  }

  lemma MissesFree(t: Tree<int>, m: Mapping<int>)
    requires Misses(t, m)
    ensures Free(t, m)
  {
  }

  function MapAll(addrs: seq<nat>): seq<Op<int>> {
    if addrs == [] then [] else MapAll(addrs[..|addrs| - 1]) + [Map(One(addrs[|addrs| - 1]))]
  }

  /** In a tree over words of `width` bits, the address can be mapped alone without displacing any, and the
      tree is then `t'`. */
  ghost predicate Grows(t: Tree<int>, a: nat, t': Tree<int>, width: nat)
    requires width > 0
  {
    && a < Pow2(width) && Misses(t, One(a)) && Hangs(t, One(a), Pow2(width - 1), width - 1)
    && Hang(t, One(a), Pow2(width - 1), width - 1) == t'
  }

  lemma MapNext(addrs: seq<nat>, t: Tree<int>, a: nat, t': Tree<int>, width: nat)
    requires width > 0 && Legal(MapAll(addrs), width) && RunTree(MapAll(addrs), width) == t
    requires Grows(t, a, t', width)
    ensures Legal(MapAll(addrs + [a]), width) && RunTree(MapAll(addrs + [a]), width) == t'
  {
    hide RunTree, Legal, Hang, Hangs, Insert, Fits;
    MissesFree(t, One(a));
    HangInserts(t, One(a), Pow2(width - 1), width - 1);
    NextMap(MapAll(addrs), One(a), width);
    var next := addrs + [a];
    assert next[..|next| - 1] == addrs;
  }

  lemma MapFirst(width: nat)
    requires width > 0
    ensures Legal(MapAll([]), width) && RunTree(MapAll([]), width) == Nil
  {
  }

  // ---- the same in a wider tree ----

  /** The tree `t` over words of `k` bits at the end of the lower edge of one over words of `width` bits, whose
      slots above `t` hold their midpoints. */
  function Edge(t: Tree<int>, k: nat, width: nat): Tree<int>
    decreases width
  {
    if width <= k then t else Bin(Edge(t, k, width - 1), One(Pow2(width - 1)), Nil)
  }

  lemma {:induction false} EdgeGrows(t: Tree<int>, a: nat, t': Tree<int>, k: nat, width: nat)
    requires 0 < k <= width && Grows(t, a, t', k)
    ensures Grows(Edge(t, k, width), a, Edge(t', k, width), width)
    decreases width
  {
    if k < width {
      EdgeGrows(t, a, t', k, width - 1);
      assert Pow2(width) == 2 * Pow2(width - 1) && MinSemi(Pow2(width - 1), width - 1) == Pow2(width - 2);
    }
  }

  lemma {:induction false} EdgeMisses(t: Tree<int>, a: nat, k: nat, width: nat)
    requires 0 < k <= width && a < Pow2(k) && Misses(t, One(a))
    ensures Misses(Edge(t, k, width), One(a)) && a < Pow2(width)
    decreases width
  {
    if k < width {
      EdgeMisses(t, a, k, width - 1);
    }
  }

  lemma {:induction false} EdgeFinds(t: Tree<int>, k: nat, width: nat)
    requires 0 < k <= width
    ensures EdgeAt(Edge(t, k, width), width - 1, k - 1) == t
    decreases width
  {
    if k < width {
      EdgeFinds(t, k, width - 1);
    }
  }

  lemma {:induction false} EdgeWF(t: Tree<int>, k: nat, width: nat)
    requires 0 < k <= width && WF(Edge(t, k, width), Pow2(width - 1), width - 1)
    ensures WF(t, Pow2(k - 1), k - 1)
    decreases width
  {
    if k < width {
      WFLeft(Edge(t, k, width), width - 1);
      EdgeWF(t, k, width - 1);
    }
  }

  lemma {:induction false} EdgeRemoves(t: Tree<int>, a: nat, k: nat, width: nat)
    requires 0 < k <= width && a < Pow2(k)
    ensures Locate(Edge(t, k, width), a, Pow2(width - 1), width - 1) == Locate(t, a, Pow2(k - 1), k - 1)
    ensures RemoveFits(Edge(t, k, width), a, Pow2(width - 1), width - 1) <==> RemoveFits(t, a, Pow2(k - 1), k - 1)
    ensures a < Pow2(width)
    decreases width
  {
    hide PopFits;
    if k < width {
      EdgeRemoves(t, a, k, width - 1);
      assert MinSemi(Pow2(width - 1), width - 1) == Pow2(width - 2);
    }
  }

  /** The midpoints on the edge above a slot for words of `k` bits, the root's first. */
  function Fill(k: nat, width: nat): seq<nat>
    decreases width - k
  {
    if width <= k then [] else Fill(k + 1, width) + [Pow2(k)]
  }

  lemma {:induction false} EdgeNil(k: nat, width: nat)
    requires k < width
    ensures Edge(Leaf(Pow2(k)), k + 1, width) == Edge(Nil, k, width)
    decreases width
  {
    if k + 1 < width {
      EdgeNil(k, width - 1);
    } else {
      assert Edge(Nil, k, k) == Nil;
    }
  }

  lemma {:induction false} FillRun(k: nat, width: nat)
    requires k <= width && width > 0
    ensures Legal(MapAll(Fill(k, width)), width) && RunTree(MapAll(Fill(k, width)), width) == Edge(Nil, k, width)
    decreases width - k
  {
    hide RunTree, Legal, MapAll, Grows, Edge;
    if k == width {
      MapFirst(width);
      FillStart(width);
    } else {
      FillRun(k + 1, width);
      FillStart(k);
      EdgeNext(Fill(k + 1, width), Nil, Pow2(k), Leaf(Pow2(k)), k + 1, width);
      EdgeNil(k, width);
    }
  }

  lemma FillStart(k: nat)
    ensures Edge(Nil, k, k) == Nil && Grows(Nil, Pow2(k), Leaf(Pow2(k)), k + 1)
  {
  }

  lemma EdgeNext(addrs: seq<nat>, t: Tree<int>, a: nat, t': Tree<int>, k: nat, width: nat)
    requires 0 < k <= width && Legal(MapAll(addrs), width) && RunTree(MapAll(addrs), width) == Edge(t, k, width)
    requires Grows(t, a, t', k)
    ensures Legal(MapAll(addrs + [a]), width) && RunTree(MapAll(addrs + [a]), width) == Edge(t', k, width)
  {
    hide RunTree, Legal, MapAll, Grows, Edge;
    EdgeGrows(t, a, t', k, width);
    MapNext(addrs, Edge(t, k, width), a, Edge(t', k, width), width);
  }

  // ---- a range that finds no slot ----

  /** A slot of midpoint 2 that holds 0 and 1 cannot be taken over. */
  lemma PairJams(x: nat, y: nat)
    requires x + y == 1
    ensures !AllFit(Leaf(2), Bin(Leaf(x), One(y), Nil), 2, 1)
  {
    var u := Bin(Leaf(x), One(y), Nil);
    var t1 := Bin(Leaf(x), One(2), Nil);
    assert Reinsert(Leaf(2), Leaf(x), 2, 1) == t1 && Reinsert(t1, Nil, 2, 1) == t1 by {
      assert Hangs(Leaf(2), One(x), 2, 1) && Hang(Leaf(2), One(x), 2, 1) == t1;
      HangInserts(Leaf(2), One(x), 2, 1);
      FitParts(Leaf(2), Leaf(x), 2, 1);
      assert Reinsert(Leaf(2), Nil, 2, 1) == Leaf(2);
    }
    FitParts(Leaf(2), u, 2, 1);
    assert Items(t1) == {One(x), One(2)};
    assert WF(Leaf(x), 1, 0) && WF(t1, 2, 1);
    FitsEdge(t1, One(y), 1);
  }

  lemma PairGrows()
    ensures Grows(Nil, 1, Leaf(1), 2) && Grows(Leaf(1), 0, Bin(Leaf(0), One(1), Nil), 2)
    ensures Misses(Bin(Leaf(0), One(1), Nil), One(2))
  {
  }

  /** The range 2, which is neither 0 nor 1, is refused after insertions that all succeed: it displaces the
      range 1, and with it the range 0, and one of them is lost. */
  lemma TwoRefused(width: nat)
    requires width >= 2
    ensures Refused(One(2), MapAll(Fill(2, width) + [1] + [0]), width)
    ensures var t := RunTree(MapAll(Fill(2, width) + [1] + [0]), width);
            Items(Insert(t, One(2), Pow2(width - 1), width - 1)) != Items(t) + {One(2)}
  {
    hide RunTree, Legal, MapAll, AllFit, Fits, Insert, Reinsert, WF, RunSet, Grows, Misses, Items, EdgeAt, Free, Fill, Edge;
    var addrs, u := Fill(2, width) + [1] + [0], Bin(Leaf(0), One(1), Nil);
    var t := Edge(u, 2, width);
    assert Pow2(1) == 2 && Pow2(2) == 4;
    PairGrows();
    FillRun(2, width);
    EdgeNext(Fill(2, width), Nil, 1, Leaf(1), 2, width);
    EdgeNext(Fill(2, width) + [1], Leaf(1), 0, u, 2, width);
    RootSlot(width);
    RunOk(MapAll(addrs), width);
    TwoIn(u, width);
    PairJams(0, 1);
    EdgeFinds(u, 2, width);
    FitsAbove(t, One(2), width - 1, 1);
    InsertExactly(t, One(2), Pow2(width - 1), width - 1);
    FreeClear(MapAll(addrs), One(2), width);
  }

  lemma TwoIn(u: Tree<int>, width: nat)
    requires width >= 2 && Misses(u, One(2))
    ensures Free(Edge(u, 2, width), One(2)) && 2 < Pow2(width) && InSlot(One(2), Pow2(width - 1), width - 1)
  {
    assert Pow2(2) == 4;
    EdgeMisses(u, 2, 2, width);
    MissesFree(Edge(u, 2, width), One(2));
  }

  lemma FreeClear(ops: seq<Op<int>>, m: Mapping<int>, width: nat)
    requires width > 0 && Legal(ops, width) && Free(RunTree(ops, width), m)
    ensures Clear(RunSet(ops), m)
  {
    hide RunTree, Legal;
    RunOk(ops, width);
  }

  // ---- a removal that loses a range ----

  /** Re-insertion where no node displaces another. */
  function HangAll(t: Tree<int>, u: Tree<int>, semi: int, level: nat): Tree<int>
    decreases u
  {
    if u.Nil? then t
    else Hang(HangAll(HangAll(t, u.left, semi, level), u.right, semi, level), u.item, semi, level)
  }

  predicate HangsAll(t: Tree<int>, u: Tree<int>, semi: int, level: nat)
    decreases u
  {
    u.Bin? ==>
      var t1 := HangAll(t, u.left, semi, level);
      && HangsAll(t, u.left, semi, level) && HangsAll(t1, u.right, semi, level) && !Covers(u.item, semi)
      && Hangs(HangAll(t1, u.right, semi, level), u.item, semi, level)
  }

  lemma {:induction false} HangReinserts(t: Tree<int>, u: Tree<int>, semi: int, level: nat)
    requires HangsAll(t, u, semi, level)
    ensures Reinsert(t, u, semi, level) == HangAll(t, u, semi, level) && AllFit(t, u, semi, level)
    decreases u
  {
    hide Insert, Fits, Hang, Hangs;
    if u.Bin? {
      var t1 := HangAll(t, u.left, semi, level);
      HangReinserts(t, u.left, semi, level);
      HangReinserts(t1, u.right, semi, level);
      FitParts(t, u, semi, level);
      HangInserts(HangAll(t1, u.right, semi, level), u.item, semi, level);
    }
  }

  /** The edge of the tree holds, from the top, 32, 2, 1, 0 and 3. */
  function Lower(): Tree<int> {
    Bin(Bin(Leaf(3), One(0), Bin(Leaf(5), One(6), Leaf(7))), One(1), Nil)
  }

  /** ... and with 32 taken out and all but 2 put back: 3, 5, 7, 6, 0 and 1. */
  function PutBack(): Tree<int> {
    Bin(Bin(Bin(Bin(Bin(Leaf(1), One(0), Nil), One(6), Nil), One(7), Nil), One(5), Nil), One(3), Nil)
  }

  /** 3, 5, 7 and 6, as they are put back. */
  function Upper(rest: Tree<int>): Tree<int> {
    Bin(Bin(Bin(Bin(rest, One(6), Nil), One(7), Nil), One(5), Nil), One(3), Nil)
  }

  lemma UpperPutBack()
    ensures HangsAll(Nil, Leaf(3), 32, 5) && HangAll(Nil, Leaf(3), 32, 5) == Leaf(3)
    ensures var b := Bin(Leaf(5), One(6), Leaf(7));
            HangsAll(Leaf(3), b, 32, 5) && HangAll(Leaf(3), b, 32, 5) == Upper(Nil)
  {
    var p5, p7 := Bin(Leaf(5), One(3), Nil), Bin(Bin(Leaf(7), One(5), Nil), One(3), Nil);
    assert HangAll(Leaf(3), Leaf(5), 32, 5) == p5 && HangAll(p5, Leaf(7), 32, 5) == p7;
    assert Hang(p7, One(6), 32, 5) == Upper(Nil);
  }

  lemma PairPutBack()
    ensures Hangs(Upper(Nil), One(0), 32, 5) && Hang(Upper(Nil), One(0), 32, 5) == Upper(Leaf(0))
    ensures Hangs(Upper(Leaf(0)), One(1), 32, 5) && Hang(Upper(Leaf(0)), One(1), 32, 5) == PutBack()
  {
  }

  lemma LowerPutBack()
    ensures HangsAll(Nil, Lower(), 32, 5) && HangAll(Nil, Lower(), 32, 5) == PutBack()
  {
    hide Hangs, Hang, Upper, PutBack;
    UpperPutBack();
    PairPutBack();
    var u := Bin(Leaf(3), One(0), Bin(Leaf(5), One(6), Leaf(7)));
    assert HangsAll(Nil, u, 32, 5) && HangAll(Nil, u, 32, 5) == Upper(Leaf(0));
  }

  lemma PutBackEdge()
    ensures Misses(PutBack(), One(2)) && EdgeAt(PutBack(), 5, 1) == Bin(Leaf(1), One(0), Nil)
    ensures Reinsert(PutBack(), Nil, 32, 5) == PutBack()
  {
  }

  function Whole(): Tree<int> {
    Bin(Bin(Lower(), One(2), Nil), One(32), Nil)
  }

  function Chain(lower: Tree<int>): Tree<int> {
    Bin(Bin(Bin(lower, One(1), Nil), One(2), Nil), One(32), Nil)
  }

  lemma WholeGrows()
    ensures Grows(Nil, 32, Leaf(32), 6) && Grows(Leaf(32), 2, Bin(Leaf(2), One(32), Nil), 6)
    ensures Grows(Bin(Leaf(2), One(32), Nil), 1, Chain(Nil), 6) && Grows(Chain(Nil), 0, Chain(Leaf(0)), 6)
  {
  }

  lemma ChainGrows(l: Tree<int>, a: nat, l': Tree<int>)
    requires 2 < a < 8 && Misses(l, One(a)) && Hangs(l, One(a), 4, 2) && Hang(l, One(a), 4, 2) == l'
    ensures Grows(Chain(l), a, Chain(l'), 6)
  {
    assert Pow2(6) == 64 && Pow2(5) == 32 && Pow2(4) == 16 && Pow2(3) == 8 && Pow2(2) == 4;
    var l3, l3' := Bin(l, One(1), Nil), Bin(l', One(1), Nil);
    assert Hangs(l3, One(a), 8, 3) && Hang(l3, One(a), 8, 3) == l3';
    var l4, l4' := Bin(l3, One(2), Nil), Bin(l3', One(2), Nil);
    assert Hangs(l4, One(a), 16, 4) && Hang(l4, One(a), 16, 4) == l4';
    assert Misses(l3, One(a)) && Misses(l4, One(a)) && Misses(Chain(l), One(a));
  }

  lemma WholeGrowsOn()
    ensures var l := Bin(Leaf(3), One(0), Nil);
            Misses(Leaf(0), One(3)) && Hangs(Leaf(0), One(3), 4, 2) && Hang(Leaf(0), One(3), 4, 2) == l
    ensures var l, l' := Bin(Leaf(3), One(0), Nil), Bin(Leaf(3), One(0), Leaf(6));
            Misses(l, One(6)) && Hangs(l, One(6), 4, 2) && Hang(l, One(6), 4, 2) == l'
    ensures var l, l' := Bin(Leaf(3), One(0), Leaf(6)), Bin(Leaf(3), One(0), Bin(Leaf(5), One(6), Nil));
            Misses(l, One(5)) && Hangs(l, One(5), 4, 2) && Hang(l, One(5), 4, 2) == l'
    ensures var l, l' := Bin(Leaf(3), One(0), Bin(Leaf(5), One(6), Nil)), Bin(Leaf(3), One(0), Bin(Leaf(5), One(6), Leaf(7)));
            Misses(l, One(7)) && Hangs(l, One(7), 4, 2) && Hang(l, One(7), 4, 2) == l'
  {
  }

  /** 32, 2, 1, 0, 3, 6, 5 and 7, after the midpoints above. */
  function WholeAddrs(width: nat): seq<nat> {
    Fill(6, width) + [32] + [2] + [1] + [0] + [3] + [6] + [5] + [7]
  }

  lemma WholeRun(width: nat)
    requires width >= 6
    ensures Legal(MapAll(WholeAddrs(width)), width)
    ensures RunTree(MapAll(WholeAddrs(width)), width) == Edge(Whole(), 6, width)
  {
    hide RunTree, Legal, MapAll, Grows, Misses, Hang, Hangs, Fill, Edge;
    var l1, l2 := Bin(Leaf(3), One(0), Nil), Bin(Leaf(3), One(0), Leaf(6));
    var l3, l4 := Bin(Leaf(3), One(0), Bin(Leaf(5), One(6), Nil)), Bin(Leaf(3), One(0), Bin(Leaf(5), One(6), Leaf(7)));
    WholeGrows();
    WholeGrowsOn();
    FillRun(6, width);
    var addrs := Fill(6, width);
    EdgeNext(addrs, Nil, 32, Leaf(32), 6, width);
    addrs := addrs + [32];
    EdgeNext(addrs, Leaf(32), 2, Bin(Leaf(2), One(32), Nil), 6, width);
    addrs := addrs + [2];
    EdgeNext(addrs, Bin(Leaf(2), One(32), Nil), 1, Chain(Nil), 6, width);
    addrs := addrs + [1];
    EdgeNext(addrs, Chain(Nil), 0, Chain(Leaf(0)), 6, width);
    addrs := addrs + [0];
    ChainNext(addrs, Leaf(0), 3, l1, width);
    addrs := addrs + [3];
    ChainNext(addrs, l1, 6, l2, width);
    addrs := addrs + [6];
    ChainNext(addrs, l2, 5, l3, width);
    addrs := addrs + [5];
    ChainNext(addrs, l3, 7, l4, width);
  }

  lemma ChainNext(addrs: seq<nat>, l: Tree<int>, a: nat, l': Tree<int>, width: nat)
    requires width >= 6 && Legal(MapAll(addrs), width) && RunTree(MapAll(addrs), width) == Edge(Chain(l), 6, width)
    requires 2 < a < 8 && Misses(l, One(a)) && Hangs(l, One(a), 4, 2) && Hang(l, One(a), 4, 2) == l'
    ensures Legal(MapAll(addrs + [a]), width) && RunTree(MapAll(addrs + [a]), width) == Edge(Chain(l'), 6, width)
  {
    hide RunTree, Legal, MapAll, Grows, Misses, Hang, Hangs, Chain, Edge;
    ChainGrows(l, a, l');
    EdgeNext(addrs, Chain(l), a, Chain(l'), 6, width);
  }

  /** 2 cannot be put back. */
  lemma WholeJams()
    requires WF(Whole(), 32, 5)
    ensures !AllFit(Nil, Whole().left, 32, 5)
  {
    hide WF, AllFit, Fits, Insert, Reinsert, HangsAll, HangAll, Moves, Misses, EdgeAt, Free, AllFree, Lower, PutBack;
    assert Pow2(5) == 32 && Pow2(1) == 2;
    var u := Whole().left;
    PopMoves(Whole(), 32, 5);
    MoveParts(Nil, u, 32, 5);
    LowerPutBack();
    HangReinserts(Nil, Lower(), 32, 5);
    ReinsertOk(Nil, Lower(), 32, 5);
    FitParts(Nil, u, 32, 5);
    PutBackEdge();
    MissesFree(PutBack(), One(2));
    PairJams(1, 0);
    FitsAbove(PutBack(), One(2), 5, 1);
  }

  /** A removal can lose a range too: after insertions that all succeed, taking out the range 32 puts back what was
      below it in another order, and the range 2 then displaces 0 and 1, for which no room is left. */
  lemma RemovalLoses(width: nat)
    requires width >= 6
    ensures var ops := MapAll(WholeAddrs(width));
            && Legal(ops, width)
            && Locate(RunTree(ops, width), 32, Pow2(width - 1), width - 1) == Hit(One(32))
            && !RemoveFits(RunTree(ops, width), 32, Pow2(width - 1), width - 1)
            && Items(Remove(RunTree(ops, width), 32, Pow2(width - 1), width - 1)) != RunSet(ops) - {One(32)}
  {
    hide RunTree, Legal, MapAll, AllFit, WF, RunSet, Lower, Reinsert, Items, Remove, Edge, WholeAddrs;
    var t := Edge(Whole(), 6, width);
    assert Pow2(5) == 32 && Pow2(6) == 64;
    WholeRun(width);
    RunOk(MapAll(WholeAddrs(width)), width);
    EdgeWF(Whole(), 6, width);
    WholeJams();
    EdgeRemoves(Whole(), 32, 6, width);
    RootSlot(width);
    RemoveOk(t, 32, Pow2(width - 1), width - 1);
  }

  // ---- lookups and overlaps ----

  /** A failing lookup is not bounded by the address's lowest set bit: after this run the root's midpoint
      is compared with two nodes, where a successful lookup of it never goes past the first. */
  lemma MissWalksOn<N>(id: N, width: nat)
    requires width >= 3
    ensures var mid := Pow2(width - 1);
            var ops := [Map(Mapping(id, mid + 1, mid + 1)), Map(Mapping(id, mid + 2, mid + 2))];
            && Legal(ops, width) && SemiLevel(mid) == width - 1
            && Locate(RunTree(ops, width), mid, mid, width - 1) == Miss
            && Visits(RunTree(ops, width), mid, mid, width - 1) == 2
  {
    var mid := Pow2(width - 1);
    var x, y := Mapping(id, mid + 1, mid + 1), Mapping(id, mid + 2, mid + 2);
    var one, two := [Map(x)], [Map(x), Map(y)];
    assert two[..1] == one && one[..0] == [] && two[1] == Map(y) && one[0] == Map(x);
    assert Pow2(width - 1) == 4 * Pow2(width - 3);
    assert Legal(one, width) && RunSet(one) == {x} by { assert Legal<N>([], width) && RunSet<N>([]) == {}; }
    assert RunTree(one, width) == Bin(Nil, x, Nil) by { assert RunTree<N>([], width) == Nil; }
    assert Insert(Nil, y, MaxSemi(mid, width - 1), width - 2) == Bin(Nil, y, Nil);
    assert RunTree(two, width) == Bin(Nil, x, Bin(Nil, y, Nil));
    var leaf, semi := Bin(Nil, y, Nil), MaxSemi(mid, width - 1);
    assert Locate<N>(Nil, mid, MinSemi(semi, width - 2), width - 3) == Miss;
    assert Locate(leaf, mid, semi, width - 2) == Miss;
    assert Visits<N>(Nil, mid, MinSemi(semi, width - 2), width - 3) == 0;
    assert Visits(leaf, mid, semi, width - 2) == 1;
    RootSlot(width);
    SlotRange(mid, width - 1);
  }

  /** addrtree_tryinsert does not answer KE_EXISTS for every overlap: after this run the new range
      overlaps only a range below the slot it would take, which is left to the overlap assertion. */
  lemma HiddenOverlap<N>(id: N, width: nat)
    requires width >= 3
    ensures var mid := Pow2(width - 1);
            var ops := [Map(Mapping(id, mid + 2, mid + 2)), Map(Mapping(id, mid + 1, mid + 1))];
            && Legal(ops, width)
            && TryInsert(RunTree(ops, width), Mapping(id, mid, mid + 1), mid, width - 1) == NoAnswer
  {
    var mid := Pow2(width - 1);
    var x, y := Mapping(id, mid + 2, mid + 2), Mapping(id, mid + 1, mid + 1);
    var one, two := [Map(x)], [Map(x), Map(y)];
    assert two[..1] == one && one[..0] == [] && two[1] == Map(y) && one[0] == Map(x);
    assert Pow2(width - 1) == 4 * Pow2(width - 3);
    assert Legal(one, width) && RunSet(one) == {x} by { assert Legal<N>([], width) && RunSet<N>([]) == {}; }
    assert RunTree(one, width) == Bin(Nil, x, Nil) by { assert RunTree<N>([], width) == Nil; }
    assert Insert(Nil, y, MaxSemi(mid, width - 1), width - 2) == Bin(Nil, y, Nil);
    assert RunTree(two, width) == Bin(Nil, x, Bin(Nil, y, Nil));
    assert y in Items(Bin(Nil, y, Nil)) && y in Items(RunTree(two, width));
    assert Overlaps(Mapping(id, mid, mid + 1), y);
  }
}

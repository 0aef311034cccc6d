/** The address tree in memory: nodes with two child pointers, rewritten in place. Every method is
    proved to turn a structure that represents a tree value into one that represents the value
    that the functions of `TreeSpec` give; the tree values in its parameters are ghost. */
module AddrTree {
  import opened Words
  import opened TreeSpec
  import opened TreeRuns
  import TreeLimits

  class Node {
    var atMin: Node?
    var atMax: Node?
    var mapMin: nat
    var mapMax: nat

    constructor (lo: nat, hi: nat)
      ensures mapMin == lo && mapMax == hi && atMin == null && atMax == null
    {
      mapMin, mapMax, atMin, atMax := lo, hi, null, null;
    }

    function Range(): Mapping<Node>
      reads this
    {
      Mapping(this, mapMin, mapMax)
    }
  }

  /** A `struct addrtree_head **`: the variable that holds a whole tree, or a child pointer of a node. */
  datatype Slot = RootOf(owner: AddressMap) | MinOf(node: Node) | MaxOf(node: Node)

  function RootF(p: Slot): set<AddressMap> { if p.RootOf? then {p.owner} else {} }
  function MinF(p: Slot): set<Node> { if p.MinOf? then {p.node} else {} }
  function MaxF(p: Slot): set<Node> { if p.MaxOf? then {p.node} else {} }

  function Load(p: Slot): Node?
    reads RootF(p), MinF(p), MaxF(p)
  {
    match p
    case RootOf(c) => c.root
    case MinOf(n) => n.atMin
    case MaxOf(n) => n.atMax
  }

  method Store(p: Slot, n: Node?)
    modifies RootF(p)`root, MinF(p)`atMin, MaxF(p)`atMax
    ensures Load(p) == n
  {
    match p
    case RootOf(c) => c.root := n;
    case MinOf(m) => m.atMin := n;
    case MaxOf(m) => m.atMax := n;
  }

  ghost function Ids(t: Tree<Node>): set<Node> {
    match t
    case Nil => {}
    case Bin(l, x, r) => Ids(l) + {x.id} + Ids(r)
  }

  ghost predicate Outside(p: Slot, s: set<Node>) {
    MinF(p) + MaxF(p) !! s
  }

  /** The structure below `n` in memory is the tree `t`, every node once. */
  ghost predicate Reps(n: Node?, t: Tree<Node>)
    reads Ids(t)
    decreases t
  {
    match t
    case Nil => n == null
    case Bin(l, x, r) =>
      && n == x.id && x == x.id.Range()
      && x.id !in Ids(l) && x.id !in Ids(r) && Ids(l) !! Ids(r)
      && Reps(x.id.atMin, l) && Reps(x.id.atMax, r)
  }

  // ---- slots below a slot ----

  /** The nodes between a slot and a slot below it, with the subtrees beside the way. */
  datatype Ctx =
    | Here
    | InMin(up: Ctx, item: Mapping<Node>, right: Tree<Node>)
    | InMax(up: Ctx, left: Tree<Node>, item: Mapping<Node>)

  /** The whole tree, where the slot at the end of the way holds `t`. */
  ghost function Plug(c: Ctx, t: Tree<Node>): Tree<Node> {
    match c
    case Here => t
    case InMin(up, x, r) => Plug(up, Bin(t, x, r))
    case InMax(up, l, x) => Plug(up, Bin(l, x, t))
  }

  /** The slot at the end of the way from `p`. */
  ghost function Hole(c: Ctx, p: Slot): Slot {
    match c
    case Here => p
    case InMin(up, x, r) => MinOf(x.id)
    case InMax(up, l, x) => MaxOf(x.id)
  }

  ghost function CtxIds(c: Ctx): set<Node> {
    match c
    case Here => {}
    case InMin(up, x, r) => CtxIds(up) + {x.id} + Ids(r)
    case InMax(up, l, x) => CtxIds(up) + {x.id} + Ids(l)
  }

  /** The way from the slot `p` down is in memory what `c` says. */
  ghost predicate CtxReps(c: Ctx, p: Slot)
    reads CtxIds(c), RootF(p), MinF(p), MaxF(p)
  {
    match c
    case Here => true
    case InMin(up, x, r) =>
      && x == x.id.Range() && x.id !in Ids(r) && ({x.id} + Ids(r)) !! CtxIds(up) && Outside(p, CtxIds(c))
      && Reps(x.id.atMax, r) && Load(Hole(up, p)) == x.id && CtxReps(up, p)
    case InMax(up, l, x) =>
      && x == x.id.Range() && x.id !in Ids(l) && ({x.id} + Ids(l)) !! CtxIds(up) && Outside(p, CtxIds(c))
      && Reps(x.id.atMin, l) && Load(Hole(up, p)) == x.id && CtxReps(up, p)
  }

  lemma {:induction false} ZipUp(c: Ctx, p: Slot, t: Tree<Node>)
    requires CtxReps(c, p) && Reps(Load(Hole(c, p)), t) && Ids(t) !! CtxIds(c)
    ensures Reps(Load(p), Plug(c, t)) && Ids(Plug(c, t)) == Ids(t) + CtxIds(c)
    decreases c
  {
    match c
    case Here =>
    case InMin(up, x, r) => ZipUp(up, p, Bin(t, x, r));
    case InMax(up, l, x) => ZipUp(up, p, Bin(l, x, t));
  }

  /** A slot reached from the slot `base` along `ctx`, and the part of the whole tree that it holds. */
  datatype Cursor = Cursor(base: Slot, whole: Tree<Node>, ctx: Ctx, slot: Slot, part: Tree<Node>)

  ghost predicate At(v: Cursor)
    reads CtxIds(v.ctx), RootF(v.base), MinF(v.base), MaxF(v.base), RootF(v.slot), MinF(v.slot), MaxF(v.slot), Ids(v.part)
  {
    && v.whole == Plug(v.ctx, v.part) && v.slot == Hole(v.ctx, v.base)
    && Ids(v.whole) == CtxIds(v.ctx) + Ids(v.part) && CtxIds(v.ctx) !! Ids(v.part) && Outside(v.base, Ids(v.whole))
    && CtxReps(v.ctx, v.base) && Reps(Load(v.slot), v.part)
  }

  function Start(p: Slot, t: Tree<Node>): Cursor {
    Cursor(p, t, Here, p, t)
  }

  function ToMin(v: Cursor): Cursor
    requires v.part.Bin?
  {
    v.(ctx := InMin(v.ctx, v.part.item, v.part.right), slot := MinOf(v.part.item.id), part := v.part.left)
  }

  function ToMax(v: Cursor): Cursor
    requires v.part.Bin?
  {
    v.(ctx := InMax(v.ctx, v.part.left, v.part.item), slot := MaxOf(v.part.item.id), part := v.part.right)
  }

  lemma WalkDown(v: Cursor)
    requires At(v) && v.part.Bin?
    ensures At(ToMin(v)) && At(ToMax(v))
  {
  }

  /** All that a write to a cursor's slot leaves alone on the way to it. */
  ghost function Rest(v: Cursor): set<object> {
    if v.slot == v.base then CtxIds(v.ctx) - MinF(v.slot) - MaxF(v.slot)
    else CtxIds(v.ctx) - MinF(v.slot) - MaxF(v.slot) + RootF(v.base) + MinF(v.base) + MaxF(v.base)
  }

  /** A change of the slot and of the part it holds, with one more node put in, stays off the rest. */
  lemma RestApart(v: Cursor, leaf: Node)
    requires At(v) && leaf !in Ids(v.whole) && Outside(v.base, Ids(v.whole) + {leaf})
    ensures Rest(v) !! Ids(v.part) + {leaf} && Rest(v) !! MinF(v.slot) + MaxF(v.slot) && Rest(v) !! RootF(v.slot)
    ensures Outside(v.slot, Ids(v.part) + {leaf}) && Ids(v.part) <= Ids(v.whole)
    ensures Ids(v.part) + {leaf} !! CtxIds(v.ctx)
  {
  }

  datatype View = View(cursor: Cursor, rest: set<object>)

  /** Once a cursor's slot holds `part` instead, the base holds the whole tree with that part replaced. */
  twostate lemma Rewritten(view: View, new part: Tree<Node>)
    requires view.rest == Rest(view.cursor) && unchanged(view.rest)
    requires old(At(view.cursor))
    requires Reps(Load(view.cursor.slot), part)
    requires Ids(part) !! CtxIds(view.cursor.ctx) && Outside(view.cursor.base, Ids(part))
    requires var p := view.cursor.slot;
             && (p.MinOf? ==> p.node.Range() == old(p.node.Range()) && p.node.atMax == old(p.node.atMax))
             && (p.MaxOf? ==> p.node.Range() == old(p.node.Range()) && p.node.atMin == old(p.node.atMin))
    ensures Reps(Load(view.cursor.base), Plug(view.cursor.ctx, part))
  {
    var v := view.cursor;
    if v.ctx != Here {
      assert CtxReps(v.ctx, v.base);
      ZipUp(v.ctx, v.base, part);
    }
  }

  /** The walk of `m` from the slot at `semi0`, `level0` has come to the slot at `semi`, `level`:
      what is left to do is to insert `m` into the part there. */
  ghost predicate Search(v: Cursor, m: Mapping<Node>, semi0: int, level0: nat, semi: int, level: nat)
    reads CtxIds(v.ctx), RootF(v.base), MinF(v.base), MaxF(v.base), RootF(v.slot), MinF(v.slot), MaxF(v.slot), Ids(v.part)
  {
    && At(v) && Seeks(m, v.part, semi, level)
    && (Free(v.whole, m) <==> Free(v.part, m))
    && (Fits(v.whole, m, semi0, level0) <==> Fits(v.part, m, semi, level))
    && Insert(v.whole, m, semi0, level0) == Plug(v.ctx, Insert(v.part, m, semi, level))
    && TryInsert(v.whole, m, semi0, level0) == TryInsert(v.part, m, semi, level)
    && (level < level0 || (level == level0 && semi == semi0))
  }

  lemma SearchStart(p: Slot, t: Tree<Node>, m: Mapping<Node>, semi: int, level: nat)
    requires Reps(Load(p), t) && Outside(p, Ids(t)) && Seeks(m, t, semi, level)
    ensures Search(Start(p, t), m, semi, level, semi, level)
  {
  }

  /** What the node in the current slot says about the tree there. */
  lemma SearchSees(v: Cursor, m: Mapping<Node>, semi0: int, level0: nat, semi: int, level: nat)
    requires Search(v, m, semi0, level0, semi, level)
    ensures Load(v.slot) == null <==> v.part.Nil?
    ensures v.part.Bin? ==> Load(v.slot) == v.part.item.id && v.part.item == v.part.item.id.Range()
  {
  }

  /** What is left to do, as a statement about the trees alone. */
  lemma SearchHere(v: Cursor, m: Mapping<Node>, semi0: int, level0: nat, semi: int, level: nat)
    requires Search(v, m, semi0, level0, semi, level)
    ensures At(v) && Seeks(m, v.part, semi, level)
    ensures Free(v.whole, m) && Fits(v.whole, m, semi0, level0) <==> Free(v.part, m) && Fits(v.part, m, semi, level)
    ensures Insert(v.whole, m, semi0, level0) == Plug(v.ctx, Insert(v.part, m, semi, level))
  {
  }

  lemma SearchDown(v: Cursor, m: Mapping<Node>, semi0: int, level0: nat, semi: int, level: nat)
    requires Search(v, m, semi0, level0, semi, level)
    requires v.part.Bin? && !Overlaps(m, v.part.item) && !Covers(m, semi) && level > 0
    ensures m.hi < semi ==> Search(ToMin(v), m, semi0, level0, MinSemi(semi, level), level - 1)
    ensures m.hi >= semi ==> Search(ToMax(v), m, semi0, level0, MaxSemi(semi, level), level - 1)
  {
    Descend(v.part, m, semi, level);
    WalkDown(v);
  }

  /** The loop at `again` of addrtree_insert and addrtree_tryinsert: walk down to a free slot, to a node that
      overlaps the leaf, to a slot whose midpoint the leaf covers, or to level zero. */
  method FindPlace(p0: Slot, leaf: Node, semi0: int, level0: nat, ghost t: Tree<Node>)
      returns (p: Slot, semi: int, level: nat, ghost v: Cursor)
    requires Seeks(leaf.Range(), t, semi0, level0)
    requires Reps(Load(p0), t) && Outside(p0, Ids(t))
    ensures v.base == p0 && v.whole == t && v.slot == p
    ensures Search(v, leaf.Range(), semi0, level0, semi, level)
    ensures v.part.Nil? || Overlaps(leaf.Range(), v.part.item) || Covers(leaf.Range(), semi) || level == 0
  {
    hide Search, Seeks, Reps, At;
    ghost var m := leaf.Range();
    p, semi, level, v := p0, semi0, level0, Start(p0, t);
    SearchStart(p, t, m, semi, level);
    while true
      invariant v.base == p0 && v.whole == t && v.slot == p
      invariant Search(v, m, semi0, level0, semi, level)
      decreases level
    {
      SearchSees(v, m, semi0, level0, semi, level);
      var iter := Load(p);
      if iter == null
      || (leaf.mapMin <= iter.mapMax && leaf.mapMax >= iter.mapMin)
      || (leaf.mapMin <= semi && leaf.mapMax >= semi)
      || level == 0 {
        return;
      }
      SearchDown(v, m, semi0, level0, semi, level);
      if leaf.mapMax < semi {
        p, semi, level, v := MinOf(iter), MinSemi(semi, level), level - 1, ToMin(v);
      } else {
        p, semi, level, v := MaxOf(iter), MaxSemi(semi, level), level - 1, ToMax(v);
      }
    }
  }

  lemma IdsAre(t: Tree<Node>)
    ensures Ids(t) == set x | x in Items(t) :: x.id
  {
  }

  lemma InsertIds(t: Tree<Node>, m: Mapping<Node>, semi: int, level: nat)
    requires Seeks(m, t, semi, level) && Free(t, m) && Fits(t, m, semi, level)
    ensures Ids(Insert(t, m, semi, level)) == Ids(t) + {m.id}
  {
    InsertOk(t, m, semi, level);
    IdsAre(t);
    IdsAre(Insert(t, m, semi, level));
  }

  lemma ReinsertIds(t: Tree<Node>, u: Tree<Node>, semi: int, level: nat)
    requires Moves(u, t, semi, level) && AllFree(t, u) && AllFit(t, u, semi, level)
    ensures Ids(Reinsert(t, u, semi, level)) == Ids(t) + Ids(u)
  {
    ReinsertOk(t, u, semi, level);
    IdsAre(t);
    IdsAre(u);
    IdsAre(Reinsert(t, u, semi, level));
  }

  /** The nodes of a tree that a caller can name are allocated. */
  lemma Alive(t: Tree<Node>)
    ensures forall n :: n in Ids(t) ==> allocated(n)
  {
  }

  lemma CtxAlive(c: Ctx)
    ensures forall n :: n in CtxIds(c) ==> allocated(n)
  {
    match c
    case Here =>
    case InMin(up, x, r) => Alive(r);
    case InMax(up, l, x) => Alive(l);
  }

  lemma Alone(m: Mapping<Node>)
    ensures Ids(Bin(Nil, m, Nil)) == {m.id} && Items(Bin(Nil, m, Nil)) == {m}
  {
    assert Ids(Nil) == {} && Items<Node>(Nil) == {};
  }

  /** Puts the leaf into the slot where its walk ended, displacing what is there. */
  method Settle(p: Slot, leaf: Node, semi: int, level: nat, ghost t: Tree<Node>) returns (ok: bool)
    requires Seeks(leaf.Range(), t, semi, level)
    requires Reps(Load(p), t) && leaf !in Ids(t) && Outside(p, Ids(t) + {leaf})
    requires t.Nil? || (!Overlaps(leaf.Range(), t.item) && Covers(leaf.Range(), semi))
    modifies RootF(p)`root, MinF(p)`atMin, MaxF(p)`atMax
    modifies Ids(t)`atMin, Ids(t)`atMax, leaf`atMin, leaf`atMax
    ensures ok <==> Free(t, leaf.Range()) && Fits(t, leaf.Range(), semi, level)
    ensures ok ==> Reps(Load(p), Insert(t, leaf.Range(), semi, level))
    decreases level, if t.Nil? then 0 else 4, t
  {
    ghost var m := leaf.Range();
    Alive(t);
    var iter := Load(p);
    leaf.atMin, leaf.atMax := null, null;
    Store(p, leaf);
    if iter == null {
      return true;
    }
    ghost var alone := Bin(Nil, m, Nil);
    Alone(m);
    assert Reps(Load(p), alone);
    Displace(t, m, semi, level);
    ok := ReinsertAll(p, iter, semi, level, alone, t);
  }

  /** The same for a slot below the one that the walk began at, as a change of the whole tree. */
  method SettleAt(leaf: Node, semi0: int, level0: nat, p: Slot, semi: int, level: nat, ghost v: Cursor)
      returns (ok: bool)
    requires Search(v, leaf.Range(), semi0, level0, semi, level) && p == v.slot
    requires leaf !in Ids(v.whole) && Outside(v.base, Ids(v.whole) + {leaf})
    requires v.part.Nil? || (!Overlaps(leaf.Range(), v.part.item) && Covers(leaf.Range(), semi))
    modifies RootF(v.base)`root, MinF(v.base)`atMin, MaxF(v.base)`atMax
    modifies Ids(v.whole)`atMin, Ids(v.whole)`atMax, leaf`atMin, leaf`atMax
    ensures ok <==> Free(v.whole, leaf.Range()) && Fits(v.whole, leaf.Range(), semi0, level0)
    ensures ok ==> Reps(Load(v.base), Insert(v.whole, leaf.Range(), semi0, level0))
    decreases level, if v.part.Nil? then 1 else 5, v.part
  {
    hide Search, Seeks, Free, Fits, Insert, CtxReps;
    ghost var m := leaf.Range();
    CtxAlive(v.ctx);
    SearchHere(v, m, semi0, level0, semi, level);
    RestApart(v, leaf);
    ok := Settle(p, leaf, semi, level, v.part);
    if ok {
      InsertIds(v.part, m, semi, level);
      Rewritten(View(v, Rest(v)), Insert(v.part, m, semi, level));
    }
  }

  /** addrtree_insert. The answer is false where the overlap assertion fires or no level is left to walk to, here or
      in a re-insertion. */
  method InsertNode(p0: Slot, leaf: Node, semi0: int, level0: nat, ghost t: Tree<Node>) returns (ok: bool)
    requires Seeks(leaf.Range(), t, semi0, level0)
    requires Reps(Load(p0), t) && leaf !in Ids(t) && Outside(p0, Ids(t) + {leaf})
    modifies RootF(p0)`root, MinF(p0)`atMin, MaxF(p0)`atMax
    modifies Ids(t)`atMin, Ids(t)`atMax, leaf`atMin, leaf`atMax
    ensures ok <==> Free(t, leaf.Range()) && Fits(t, leaf.Range(), semi0, level0)
    ensures ok ==> Reps(Load(p0), Insert(t, leaf.Range(), semi0, level0))
    decreases level0, if Covers(leaf.Range(), semi0) then 6 else 2, t
  {
    ghost var m := leaf.Range();
    var p, semi, level, v := FindPlace(p0, leaf, semi0, level0, t);
    SearchSees(v, m, semi0, level0, semi, level);
    var iter := Load(p);
    if iter != null && leaf.mapMin <= iter.mapMax && leaf.mapMax >= iter.mapMin {
      assert v.part.item in Items(v.part);
      return false;
    }
    if iter != null && !(leaf.mapMin <= semi && leaf.mapMax >= semi) {
      return false;
    }
    ok := SettleAt(leaf, semi0, level0, p, semi, level, v);
  }

  /** The state of a re-insertion after the left half of `u`, and then the right half, has moved. */
  lemma LeftMoved(t: Tree<Node>, u: Tree<Node>, semi: int, level: nat)
    requires u.Bin? && Moves(u, t, semi, level) && AllFree(t, u.left) && AllFit(t, u.left, semi, level)
    ensures var t1 := Reinsert(t, u.left, semi, level);
            && Moves(u.right, t1, semi, level) && Ids(t1) == Ids(t) + Ids(u.left)
            && (AllFree(t1, u.right) <==> AllFree(t, u.right))
  {
    MoveParts(t, u, semi, level);
    ReinsertOk(t, u.left, semi, level);
    MoveRight(t, u, Reinsert(t, u.left, semi, level), semi, level);
    ReinsertIds(t, u.left, semi, level);
  }

  lemma RightMoved(t: Tree<Node>, u: Tree<Node>, semi: int, level: nat)
    requires u.Bin? && Moves(u, t, semi, level) && AllFree(t, u.left) && AllFree(t, u.right)
    requires AllFit(t, u.left, semi, level) && AllFit(Reinsert(t, u.left, semi, level), u.right, semi, level)
    ensures var t2 := Reinsert(Reinsert(t, u.left, semi, level), u.right, semi, level);
            && Seeks(u.item, t2, semi, level) && !Covers(u.item, semi) && Ids(t2) == Ids(t) + Ids(u.left) + Ids(u.right)
            && (Free(t2, u.item) <==> AllFree(t, u))
  {
    hide WF, Free, Fits, AllFit, Insert, Reinsert, Seeks, Moves, AllFree;
    var t1 := Reinsert(t, u.left, semi, level);
    LeftMoved(t, u, semi, level);
    MoveParts(t, u, semi, level);
    ReinsertOk(t, u.left, semi, level);
    ReinsertOk(t1, u.right, semi, level);
    MoveItem(t, u, Reinsert(t1, u.right, semi, level), semi, level);
    ReinsertIds(t1, u.right, semi, level);
  }

  /** The re-insertion of nothing. */
  lemma NoneLeft(t: Tree<Node>, semi: int, level: nat)
    ensures Reinsert(t, Nil, semi, level) == t && AllFit(t, Nil, semi, level) && AllFree(t, Nil)
  {
    assert Items<Node>(Nil) == {};
  }

  /** __addrtree_reinsertall of the structure at `top` into the slot, children before their parent. */
  method ReinsertAll(p: Slot, top: Node, semi: int, level: nat, ghost t: Tree<Node>, ghost u: Tree<Node>)
      returns (ok: bool)
    requires Moves(u, t, semi, level)
    requires Reps(Load(p), t) && Reps(top, u) && Ids(t) !! Ids(u) && Outside(p, Ids(t) + Ids(u))
    modifies RootF(p)`root, MinF(p)`atMin, MaxF(p)`atMax
    modifies Ids(t)`atMin, Ids(t)`atMax, Ids(u)`atMin, Ids(u)`atMax
    ensures ok <==> AllFree(t, u) && AllFit(t, u, semi, level)
    ensures ok ==> Reps(Load(p), Reinsert(t, u, semi, level))
    decreases level, 3, u
  {
    hide Moves, WF, Free, AllFree, Seeks, Insert, Reinsert, Fits, AllFit;
    Alive(t);
    Alive(u);
    MovesItem(t, u, semi, level);
    FitParts(t, u, semi, level);
    MoveParts(t, u, semi, level);
    NoneLeft(t, semi, level);
    if top.atMin != null {
      ok := ReinsertAll(p, top.atMin, semi, level, t, u.left);
      if !ok { return; }
    }
    LeftMoved(t, u, semi, level);
    ghost var t1 := Reinsert(t, u.left, semi, level);
    NoneLeft(t1, semi, level);
    if top.atMax != null {
      ok := ReinsertAll(p, top.atMax, semi, level, t1, u.right);
      if !ok { return; }
    }
    RightMoved(t, u, semi, level);
    ghost var t2 := Reinsert(t1, u.right, semi, level);
    ok := InsertNode(p, top, semi, level, t2);
  }

  /** addrtree_tryinsert. KE_EXISTS leaves every node as it was. */
  method TryInsertNode(p0: Slot, leaf: Node, semi0: int, level0: nat, ghost t: Tree<Node>) returns (r: Verdict)
    requires Seeks(leaf.Range(), t, semi0, level0)
    requires Reps(Load(p0), t) && leaf !in Ids(t) && Outside(p0, Ids(t) + {leaf})
    modifies RootF(p0)`root, MinF(p0)`atMin, MaxF(p0)`atMax
    modifies Ids(t)`atMin, Ids(t)`atMax, leaf`atMin, leaf`atMax
    ensures r == TryInsert(t, leaf.Range(), semi0, level0)
    ensures r == Inserted ==> Reps(Load(p0), Insert(t, leaf.Range(), semi0, level0))
    ensures r == Exists ==> Reps(Load(p0), t) && unchanged(leaf) && Load(p0) == old(Load(p0))
    ensures r == Exists ==> forall n :: n in Ids(t) ==> n.atMin == old(n.atMin) && n.atMax == old(n.atMax)
  {
    ghost var m := leaf.Range();
    Alive(t);
    var p, semi, level, v := FindPlace(p0, leaf, semi0, level0, t);
    SearchSees(v, m, semi0, level0, semi, level);
    var iter := Load(p);
    if iter != null && leaf.mapMin <= iter.mapMax && leaf.mapMax >= iter.mapMin {
      return Exists;
    }
    if iter != null && !(leaf.mapMin <= semi && leaf.mapMax >= semi) {
      return NoAnswer;
    }
    var ok := SettleAt(leaf, semi0, level0, p, semi, level, v);
    r := if ok then Inserted else NoAnswer;
  }

  /** addrtree_locate. Not `ok` where the level assertion fires. */
  method LocateNode(root0: Node?, a: nat, semi0: int, level0: nat, ghost t: Tree<Node>)
      returns (root: Node?, ok: bool, ghost visits: nat)
    requires Reps(root0, t) && Proper(semi0, level0) && WF(t, semi0, level0)
    ensures ok <==> !Locate(t, a, semi0, level0).LevelZero?
    ensures ok ==> root == match Locate(t, a, semi0, level0) case Hit(x) => x.id case _ => null
    ensures visits == Visits(t, a, semi0, level0)
  {
    root, ok, visits := root0, true, 0;
    var semi, level := semi0, level0;
    ghost var part := t;
    while root != null
      invariant Reps(root, part) && Proper(semi, level) && WF(part, semi, level)
      invariant Locate(part, a, semi, level) == Locate(t, a, semi0, level0)
      invariant visits + Visits(part, a, semi, level) == Visits(t, a, semi0, level0)
      decreases part
    {
      visits := visits + 1;
      assert root.mapMin <= root.mapMax by { assert part.item in Items(part); }
      if a >= root.mapMin && a <= root.mapMax {
        return;
      }
      if level == 0 {
        return null, false, visits;
      }
      if a < semi {
        semi, level := MinSemi(semi, level), level - 1;
        root, part := root.atMin, part.left;
      } else {
        semi, level := MaxSemi(semi, level), level - 1;
        root, part := root.atMax, part.right;
      }
    }
  }

  /** The slot that a context's hole is. */
  ghost function HoleSlot(c: Ctx, semi: int, level: nat): (int, int) {
    match c
    case Here => (semi, level)
    case InMin(up, _, _) =>
      var (s, l) := HoleSlot(up, semi, level);
      if l > 0 then (MinSemi(s, l), l - 1) else (s, l)
    case InMax(up, _, _) =>
      var (s, l) := HoleSlot(up, semi, level);
      if l > 0 then (MaxSemi(s, l), l - 1) else (s, l)
  }

  /** The lookup of `a` from the slot at `semi0`, `level0` has come to the slot at `semi`, `level`. */
  ghost predicate Lookup(v: Cursor, a: nat, semi0: int, level0: nat, semi: int, level: nat)
    reads CtxIds(v.ctx), RootF(v.base), MinF(v.base), MaxF(v.base), RootF(v.slot), MinF(v.slot), MaxF(v.slot), Ids(v.part)
  {
    && At(v) && Proper(semi, level) && WF(v.part, semi, level) && HoleSlot(v.ctx, semi0, level0) == (semi, level)
    && Items(v.part) <= Items(v.whole)
    && Locate(v.whole, a, semi0, level0) == Locate(v.part, a, semi, level)
    && Remove(v.whole, a, semi0, level0) == Plug(v.ctx, Remove(v.part, a, semi, level))
    && (RemoveFits(v.whole, a, semi0, level0) <==> RemoveFits(v.part, a, semi, level))
  }

  lemma LookupStart(p: Slot, t: Tree<Node>, a: nat, semi: int, level: nat)
    requires Reps(Load(p), t) && Outside(p, Ids(t)) && Proper(semi, level) && WF(t, semi, level)
    ensures Lookup(Start(p, t), a, semi, level, semi, level)
  {
  }

  lemma LookupSees(v: Cursor, a: nat, semi0: int, level0: nat, semi: int, level: nat)
    requires Lookup(v, a, semi0, level0, semi, level)
    ensures Load(v.slot) == null <==> v.part.Nil?
    ensures v.part.Bin? ==> Load(v.slot) == v.part.item.id && v.part.item == v.part.item.id.Range()
    ensures Locate(v.whole, a, semi0, level0) == Locate(v.part, a, semi, level)
  {
  }

  lemma LookupDown(v: Cursor, a: nat, semi0: int, level0: nat, semi: int, level: nat)
    requires Lookup(v, a, semi0, level0, semi, level) && v.part.Bin? && !Covers(v.part.item, a) && level > 0
    ensures a < semi ==> Lookup(ToMin(v), a, semi0, level0, MinSemi(semi, level), level - 1)
    ensures a >= semi ==> Lookup(ToMax(v), a, semi0, level0, MaxSemi(semi, level), level - 1)
  {
    WalkDown(v);
  }

  /** What addrtree_plocate returns: a slot, NULL, or nothing because its level assertion fired. */
  datatype Found = Slotted(slot: Slot) | NoSlot | Stuck

  /** addrtree_plocate. The midpoint and level come back changed only together with a slot, and are that slot's. */
  method PLocate(p0: Slot, a: nat, semi0: int, level0: nat, ghost t: Tree<Node>)
      returns (r: Found, semi: int, level: nat, ghost v: Cursor)
    requires Reps(Load(p0), t) && Outside(p0, Ids(t)) && Proper(semi0, level0) && WF(t, semi0, level0)
    ensures v.base == p0 && v.whole == t
    ensures match Locate(t, a, semi0, level0)
            case Hit(x) => r == Slotted(v.slot) && v.part.Bin? && v.part.item == x && Load(v.slot) == x.id
            case Miss => r == NoSlot
            case LevelZero(_) => r == Stuck
    ensures if r.Slotted? then Lookup(v, a, semi0, level0, semi, level) else semi == semi0 && level == level0
  {
    hide Lookup, WF, Reps, At, Remove;
    var p := p0;
    semi, level, v := semi0, level0, Start(p0, t);
    LookupStart(p, t, a, semi, level);
    while true
      invariant v.base == p0 && v.whole == t && v.slot == p
      invariant Lookup(v, a, semi0, level0, semi, level)
      decreases v.part
    {
      LookupSees(v, a, semi0, level0, semi, level);
      var root := Load(p);
      if root == null {
        return NoSlot, semi0, level0, v;
      }
      if a >= root.mapMin && a <= root.mapMax {
        return Slotted(p), semi, level, v;
      }
      if level == 0 {
        return Stuck, semi0, level0, v;
      }
      LookupDown(v, a, semi0, level0, semi, level);
      if a < semi {
        p, semi, level, v := MinOf(root), MinSemi(semi, level), level - 1, ToMin(v);
      } else {
        p, semi, level, v := MaxOf(root), MaxSemi(semi, level), level - 1, ToMax(v);
      }
    }
  }

  /** addrtree_pop. Not `ok` where a node below the popped one cannot be put back. */
  method PopNode(p: Slot, semi: int, level: nat, ghost t: Tree<Node>) returns (root: Node, ok: bool)
    requires Reps(Load(p), t) && t.Bin? && Outside(p, Ids(t))
    requires Proper(semi, level) && WF(t, semi, level)
    modifies RootF(p)`root, MinF(p)`atMin, MaxF(p)`atMax, Ids(t)`atMin, Ids(t)`atMax
    ensures root == t.item.id
    ensures ok <==> PopFits(t, semi, level)
    ensures ok ==> Reps(Load(p), Pop(t, semi, level))
  {
    hide WF, Moves, Free, AllFree, AllFit, Insert, Reinsert;
    Alive(t);
    PopMoves(t, semi, level);
    NoneLeft(Nil, semi, level);
    ghost var t1 := Reinsert(Nil, t.left, semi, level);
    NoneLeft(t1, semi, level);
    assert Items<Node>(Nil) == {};
    root, ok := Load(p), true;
    Store(p, null);
    if root.atMin != null {
      ok := ReinsertAll(p, root.atMin, semi, level, Nil, t.left);
      if !ok { return; }
    }
    ReinsertOk(Nil, t.left, semi, level);
    ReinsertIds(Nil, t.left, semi, level);
    if root.atMax != null {
      ok := ReinsertAll(p, root.atMax, semi, level, t1, t.right);
    }
  }

  /** The same for a slot that a lookup came to, as a change of the whole tree. */
  method PopAt(p: Slot, a: nat, semi0: int, level0: nat, semi: int, level: nat, ghost v: Cursor)
      returns (root: Node, ok: bool)
    requires Lookup(v, a, semi0, level0, semi, level) && p == v.slot && v.part.Bin? && Covers(v.part.item, a)
    modifies RootF(v.base)`root, MinF(v.base)`atMin, MaxF(v.base)`atMax, Ids(v.whole)`atMin, Ids(v.whole)`atMax
    ensures root == v.part.item.id
    ensures ok <==> RemoveFits(v.whole, a, semi0, level0)
    ensures ok ==> Reps(Load(v.base), Remove(v.whole, a, semi0, level0))
  {
    hide WF, Pop, PopFits, Remove, RemoveFits, Locate, Items, CtxReps;
    CtxAlive(v.ctx);
    PopPlan(v, a, semi0, level0, semi, level);
    root, ok := PopNode(p, semi, level, v.part);
    if ok {
      Rewritten(View(v, Rest(v)), Pop(v.part, semi, level));
    }
  }

  lemma PopPlan(v: Cursor, a: nat, semi0: int, level0: nat, semi: int, level: nat)
    requires Lookup(v, a, semi0, level0, semi, level) && v.part.Bin? && Covers(v.part.item, a)
    ensures RemoveFits(v.whole, a, semi0, level0) <==> PopFits(v.part, semi, level)
    ensures PopFits(v.part, semi, level) ==> Ids(Pop(v.part, semi, level)) <= Ids(v.part)
    ensures Remove(v.whole, a, semi0, level0) == Plug(v.ctx, Pop(v.part, semi, level))
  {
    PopOk(v.part, semi, level);
    IdsAre(v.part);
    IdsAre(Pop(v.part, semi, level));
  }

  /** addrtree_remove. */
  method RemoveNode(p0: Slot, a: nat, semi0: int, level0: nat, ghost t: Tree<Node>) returns (root: Node?, ok: bool)
    requires Reps(Load(p0), t) && Outside(p0, Ids(t)) && Proper(semi0, level0) && WF(t, semi0, level0)
    modifies RootF(p0)`root, MinF(p0)`atMin, MaxF(p0)`atMax, Ids(t)`atMin, Ids(t)`atMax
    ensures ok <==> !Locate(t, a, semi0, level0).LevelZero? && RemoveFits(t, a, semi0, level0)
    ensures ok ==> root == match Locate(t, a, semi0, level0) case Hit(x) => x.id case _ => null
    ensures ok ==> Reps(Load(p0), Remove(t, a, semi0, level0))
  {
    hide WF, Insert, RemoveFits, Remove;
    Alive(t);
    LocateOk(t, a, semi0, level0);
    RemoveOk(t, a, semi0, level0);
    var r, semi, level, v := PLocate(p0, a, semi0, level0, t);
    match r
    case Slotted(p) =>
      root, ok := PopAt(p, a, semi0, level0, semi, level, v);
    case NoSlot => return null, true;
    case Stuck => return null, false;
  }

  /** A variable that holds a tree over words of `width` bits, with the ADDRTREE_* operations on it. */
  class AddressMap {
    const width: nat
    var root: Node?
    ghost var tree: Tree<Node>

    ghost predicate Valid()
      reads this, Ids(tree)
    {
      width > 0 && Reps(root, tree) && WF(tree, SemiInit(width), width - 1)
    }

    /** The mapped ranges, each with its node. */
    ghost function Contents(): set<Mapping<Node>>
      reads this
    {
      Items(tree)
    }

    ghost predicate Words(m: Mapping<Node>) {
      m.lo <= m.hi < Pow2(width)
    }

    /** The range overlaps no mapped one, and there is a slot for it and for all that it displaces. */
    ghost predicate Takes(m: Mapping<Node>)
      requires width > 0
      reads this
    {
      (forall x :: x in Contents() ==> !Overlaps(m, x)) && Fits(tree, m, SemiInit(width), width - 1)
    }

    /** No mapped range is a single address that is odd or zero. */
    ghost predicate NoneLone()
      reads this
    {
      forall x :: x in Contents() ==> !TreeLimits.Lone(x)
    }

    constructor (bits: nat)
      requires bits > 0
      ensures Valid() && width == bits && Contents() == {}
    {
      width, root, tree := bits, null, Nil;
    }

    /** ADDRTREE_LOCATE. Unless the level assertion fires, the node whose range covers the address, or null
        exactly when no mapped range does. */
    method Find(a: nat) returns (n: Node?, ok: bool)
      requires Valid()
      ensures ok ==> (n == null <==> forall x :: x in Contents() ==> !Covers(x, a))
      ensures ok && n != null ==> n.Range() in Contents() && Covers(n.Range(), a)
      ensures ok <==> !Locate(tree, a, SemiInit(width), width - 1).LevelZero?
      ensures a < Pow2(width) && NoneLone() ==> ok
    {
      hide WF, SemiInit;
      RootSlot(width);
      Steady(a);
      LocateOk(tree, a, SemiInit(width), width - 1);
      if Locate(tree, a, SemiInit(width), width - 1).Hit? {
        RangeKept(root, tree, Locate(tree, a, SemiInit(width), width - 1).item);
      }
      ghost var visits: nat;
      n, ok, visits := LocateNode(root, a, SemiInit(width), width - 1, tree);
    }

    /** ADDRTREE_INSERT. The overlap assertion holds exactly when no mapped range overlaps the new one; and a range
        that overlaps none finds no slot only if both the ranges 0 and 1 would be mapped. */
    method Add(leaf: Node) returns (ok: bool)
      requires Valid() && leaf !in Ids(tree) && Words(leaf.Range())
      modifies this`root, this`tree, Ids(tree)`atMin, Ids(tree)`atMax, leaf`atMin, leaf`atMax
      ensures ok <==> old(Takes(leaf.Range()))
      ensures ok ==> Valid() && Contents() == old(Contents()) + {leaf.Range()}
      ensures (forall x :: x in old(Contents()) ==> !Overlaps(leaf.Range(), x)) ==>
                ok || !Roomy(old(Contents()) + {leaf.Range()})
    {
      hide WF, SemiInit, Insert, Seeks, Fits, Roomy;
      ghost var m := leaf.Range();
      RootSeeks(m);
      TakesRoomy(m);
      ok := InsertNode(RootOf(this), leaf, SemiInit(width), width - 1, tree);
      if ok {
        InsertOk(tree, m, SemiInit(width), width - 1);
        tree := Insert(tree, m, SemiInit(width), width - 1);
      }
    }

    /** ADDRTREE_TRYINSERT. */
    method TryAdd(leaf: Node) returns (r: Verdict)
      requires Valid() && leaf !in Ids(tree) && Words(leaf.Range())
      modifies this`root, this`tree, Ids(tree)`atMin, Ids(tree)`atMax, leaf`atMin, leaf`atMax
      ensures r == Inserted <==> old(Takes(leaf.Range()))
      ensures r == Inserted ==> Valid() && Contents() == old(Contents()) + {leaf.Range()}
      ensures r == Exists ==> Valid() && Contents() == old(Contents()) && root == old(root) && unchanged(leaf)
      ensures r == Exists ==> exists x :: x in Contents() && Overlaps(leaf.Range(), x)
      ensures (exists x :: x in old(Contents()) && x.lo <= leaf.mapMin && leaf.mapMax <= x.hi) ==> r == Exists
      ensures r == Exists <==> old(exists x :: x in OnWalk(tree, leaf.Range(), SemiInit(width), width - 1) &&
                                               Overlaps(leaf.Range(), x))
    {
      hide WF, SemiInit, Insert, Seeks, Fits, OnWalk;
      ghost var m := leaf.Range();
      RootSeeks(m);
      Covered(m);
      TryInsertExact(tree, m, SemiInit(width), width - 1);
      OnWalkMapped(tree, m, SemiInit(width), width - 1);
      r := TryInsertNode(RootOf(this), leaf, SemiInit(width), width - 1, tree);
      if r == Inserted {
        InsertOk(tree, m, SemiInit(width), width - 1);
        tree := Insert(tree, m, SemiInit(width), width - 1);
      }
    }

    lemma Covered(m: Mapping<Node>)
      requires Valid() && Words(m)
      ensures (exists x :: x in Contents() && x.lo <= m.lo && m.hi <= x.hi) ==>
                TryInsert(tree, m, SemiInit(width), width - 1) == Exists
    {
      hide WF, SemiInit, Insert, Seeks, Fits, TryInsert;
      RootSeeks(m);
      if x :| x in Contents() && x.lo <= m.lo && m.hi <= x.hi {
        TreeLimits.CoveredExists(tree, m, x, SemiInit(width), width - 1);
      }
    }

    lemma TakesRoomy(m: Mapping<Node>)
      requires Valid() && Words(m)
      ensures (forall x :: x in Contents() ==> !Overlaps(m, x)) ==> Takes(m) || !Roomy(Contents() + {m})
    {
      hide WF, SemiInit, Insert, Seeks, Fits, Roomy;
      RootSeeks(m);
      if Free(tree, m) && Roomy(Contents() + {m}) {
        RoomyFits(tree, m, SemiInit(width), width - 1);
      }
    }

    /** ADDRTREE_REMOVE. Unless the level assertion fires, or what is below the node finds no slot, the node that covers
        the address leaves the map, and no other does. */
    method Take(a: nat) returns (n: Node?, ok: bool)
      requires Valid()
      modifies this`root, this`tree, Ids(tree)`atMin, Ids(tree)`atMax
      ensures ok ==> Valid() && (n == null <==> forall x :: x in old(Contents()) ==> !Covers(x, a))
      ensures ok && n != null ==> n.Range() in old(Contents()) && Covers(n.Range(), a)
      ensures ok ==> Contents() == old(Contents()) - if n == null then {} else {n.Range()}
      ensures ok <==> old(!Locate(tree, a, SemiInit(width), width - 1).LevelZero? &&
                          RemoveFits(tree, a, SemiInit(width), width - 1))
      ensures a < Pow2(width) && old(NoneLone()) ==> ok
    {
      hide WF, SemiInit, Remove, Locate, Items, NoneLone, Covers, RemoveFits;
      RootSlot(width);
      Steady(a);
      Taken(a);
      n, ok := RemoveNode(RootOf(this), a, SemiInit(width), width - 1, tree);
      if ok {
        tree := Remove(tree, a, SemiInit(width), width - 1);
      }
    }

    /** What a removal does to the set of mapped ranges. */
    lemma Taken(a: nat)
      requires Valid()
      ensures var r, t' := Locate(tree, a, SemiInit(width), width - 1), Remove(tree, a, SemiInit(width), width - 1);
              RemoveFits(tree, a, SemiInit(width), width - 1) ==>
                && WF(t', SemiInit(width), width - 1)
                && (r.Hit? ==>
                      && r.item in Contents() && Covers(r.item, a) && r.item.id.Range() == r.item
                      && allocated(r.item.id) && Items(t') == Contents() - {r.item})
                && (!r.Hit? ==> Items(t') == Contents() - {} && forall x :: x in Contents() ==> !Covers(x, a))
    {
      hide WF, SemiInit, Remove, Locate, RemoveFits;
      RootSlot(width);
      LocateOk(tree, a, SemiInit(width), width - 1);
      RemoveOk(tree, a, SemiInit(width), width - 1);
      if Locate(tree, a, SemiInit(width), width - 1).Hit? {
        RangeKept(root, tree, Locate(tree, a, SemiInit(width), width - 1).item);
      }
    }

    /** While no lone range is mapped, no lookup of a machine word descends from level zero, and what a removal puts
        back always fits. */
    lemma Steady(a: nat)
      requires Valid()
      ensures NoneLone() ==> RemoveFits(tree, a, SemiInit(width), width - 1)
      ensures a < Pow2(width) && NoneLone() ==> !Locate(tree, a, SemiInit(width), width - 1).LevelZero?
    {
      hide Remove, RemoveFits;
      RootSlot(width);
      if a < Pow2(width) && Locate(tree, a, SemiInit(width), width - 1).LevelZero? {
        TreeLimits.StuckAtLone(tree, a, SemiInit(width), width - 1);
      }
      if NoneLone() {
        forall x | x in Items(tree)
          ensures x.hi != 0
        {
          assert !TreeLimits.Lone(x) && InSlot(x, SemiInit(width), width - 1);
        }
        RoomyRemoves(tree, a, SemiInit(width), width - 1);
      }
    }

    lemma RootSeeks(m: Mapping<Node>)
      requires Valid() && Words(m)
      ensures Seeks(m, tree, SemiInit(width), width - 1)
    {
      RootSlot(width);
    }
  }

  lemma RangeKept(n: Node?, t: Tree<Node>, x: Mapping<Node>)
    requires Reps(n, t) && x in Items(t)
    ensures x.id.Range() == x && allocated(x.id)
  {
  }
}

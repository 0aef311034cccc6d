/** Unsigned machine words as natural numbers: the C bit operators, and the address-tree macros
    written with them. No word width is fixed: every result of an operator here fits the
    widths of its operands. */
module Words {

  function Pow2(n: nat): (p: nat)
    ensures p >= 1
  {
    if n == 0 then 1 else 2 * Pow2(n - 1)
  }

  /** `x | y`, bit by bit. */
  function Or(x: nat, y: nat): nat
    decreases x + y
  {
    if x == 0 && y == 0 then 0
    else 2 * Or(x / 2, y / 2) + if x % 2 == 1 || y % 2 == 1 then 1 else 0
  }

  /** `x & ~y`, bit by bit. */
  function AndNot(x: nat, y: nat): nat {
    if x == 0 then 0
    else 2 * AndNot(x / 2, y / 2) + if x % 2 == 1 && y % 2 == 0 then 1 else 0
  }

  /** `ffs`: one plus the index of the lowest set bit, or zero. */
  function Ffs(x: nat): nat {
    if x == 0 then 0 else if x % 2 == 1 then 1 else 1 + Ffs(x / 2)
  }

  /** The index of the lowest set bit of `semi` is `level`: the two halves of a slot's name agree. */
  predicate IsSlot(semi: nat, level: nat) {
    if level == 0 then semi % 2 == 1 else semi % 2 == 0 && IsSlot(semi / 2, level - 1)
  }

  // ADDRTREE_ADDRSEMI_INIT for a word of `width` bits
  function SemiInit(width: nat): nat {
    (Pow2(width) - 1) / 2 + 1
  }

  // ADDRTREE_MAPMIN, MAPMAX, NEXTMIN, NEXTMAX and SEMILEVEL
  function MapMin(semi: nat, level: nat): nat {
    AndNot(semi, Pow2(level))
  }

  function MapMax(semi: nat, level: nat): nat {
    Or(semi, Pow2(level) - 1)
  }

  function NextMin(semi: nat, level: nat): nat
    requires level > 0
  {
    Or(AndNot(semi, Pow2(level)), Pow2(level - 1))
  }

  function NextMax(semi: nat, level: nat): nat
    requires level > 0
  {
    Or(semi, Pow2(level - 1))
  }

  function SemiLevel(semi: nat): int {
    Ffs(semi) - 1
  }

  lemma OpZero(x: nat)
    ensures Or(x, 0) == x && AndNot(x, 0) == x
  {
  }

  /** The root slot of a word of `width` bits is the middle of its address range. */
  lemma {:induction false} RootSlot(width: nat)
    requires width > 0
    ensures SemiInit(width) == Pow2(width - 1) && IsSlot(SemiInit(width), width - 1)
    ensures MapMin(SemiInit(width), width - 1) == 0
    ensures MapMax(SemiInit(width), width - 1) == Pow2(width) - 1
  {
    PowerSlot(width - 1);
    SlotRange(SemiInit(width), width - 1);
  }

  lemma {:induction false} PowerSlot(level: nat)
    ensures IsSlot(Pow2(level), level)
  {
    if level > 0 {
      PowerSlot(level - 1);
      SlotDoubles(Pow2(level - 1), level - 1);
    }
  }

  lemma Doubles(x: nat, y: nat)
    ensures Or(2 * x, 2 * y) == 2 * Or(x, y) && AndNot(2 * x, 2 * y) == 2 * AndNot(x, y)
    ensures Or(2 * x, 2 * y + 1) == 2 * Or(x, y) + 1
  {
    assert (2 * x) / 2 == x && (2 * y) / 2 == y && (2 * y + 1) / 2 == y;
  }

  /** The slot's bounds are the aligned block of `Pow2(level + 1)` addresses around its midpoint,
      and the level is recovered from the midpoint alone. */
  lemma {:induction false} SlotRange(semi: nat, level: nat)
    requires IsSlot(semi, level)
    ensures Pow2(level) <= semi
    ensures MapMin(semi, level) == semi - Pow2(level)
    ensures MapMax(semi, level) == semi + Pow2(level) - 1
    ensures SemiLevel(semi) == level
  {
    if level == 0 {
      OpZero(semi / 2);
      OpZero(semi);
    } else {
      var half := semi / 2;
      SlotRange(half, level - 1);
      Doubles(half, Pow2(level - 1));
      Doubles(half, Pow2(level - 1) - 1);
    }
  }

  /** One step of the walk is exact binary subdivision: the two child slots are slots of the next
      lower level, and they split the parent's addresses into those below the midpoint and
      those from the midpoint on. */
  lemma {:induction false} SlotHalves(semi: nat, level: nat)
    requires IsSlot(semi, level) && level > 0
    ensures NextMin(semi, level) == semi - Pow2(level - 1) && IsSlot(NextMin(semi, level), level - 1)
    ensures NextMax(semi, level) == semi + Pow2(level - 1) && IsSlot(NextMax(semi, level), level - 1)
    ensures MapMin(NextMin(semi, level), level - 1) == MapMin(semi, level)
    ensures MapMax(NextMin(semi, level), level - 1) == semi - 1
    ensures MapMin(NextMax(semi, level), level - 1) == semi
    ensures MapMax(NextMax(semi, level), level - 1) == MapMax(semi, level)
  {
    Subdivide(semi, level);
    SlotRange(semi, level);
    SlotRange(NextMin(semi, level), level - 1);
    SlotRange(NextMax(semi, level), level - 1);
  }

  lemma {:induction false} Subdivide(semi: nat, level: nat)
    requires IsSlot(semi, level) && level > 0
    ensures semi >= Pow2(level)
    ensures NextMin(semi, level) == semi - Pow2(level - 1) && IsSlot(NextMin(semi, level), level - 1)
    ensures NextMax(semi, level) == semi + Pow2(level - 1) && IsSlot(NextMax(semi, level), level - 1)
  {
    hide Or, AndNot, NextMin, NextMax;
    var half := semi / 2;
    assert semi == 2 * half;
    if level == 1 {
      SubdivideLast(half);
    } else {
      Subdivide(half, level - 1);
      NextDoubles(half, level - 1);
      SlotDoubles(NextMin(half, level - 1), level - 2);
      SlotDoubles(NextMax(half, level - 1), level - 2);
    }
  }

  lemma SubdivideLast(odd: nat)
    requires odd % 2 == 1
    ensures NextMin(2 * odd, 1) == 2 * odd - 1 && NextMax(2 * odd, 1) == 2 * odd + 1
  {
    assert Pow2(1) == 2 && Pow2(0) == 1;
    SlotRange(odd, 0);
    Doubles(odd, 1);
    OpZero(odd);
    OpZero(odd - 1);
    Doubles(odd, 0);
    Doubles(odd - 1, 0);
  }

  lemma NextDoubles(semi: nat, level: nat)
    requires level > 0
    ensures NextMin(2 * semi, level + 1) == 2 * NextMin(semi, level)
    ensures NextMax(2 * semi, level + 1) == 2 * NextMax(semi, level)
  {
    Doubles(semi, Pow2(level));
    Doubles(semi, Pow2(level - 1));
    Doubles(AndNot(semi, Pow2(level)), Pow2(level - 1));
  }

  lemma SlotDoubles(semi: nat, level: nat)
    requires IsSlot(semi, level)
    ensures IsSlot(2 * semi, level + 1)
  {
    assert (2 * semi) / 2 == semi;
  }
}

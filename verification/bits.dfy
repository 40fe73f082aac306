/**
 * Descendant masks as 64-bit words: bit k set means leaf k lies under the node.
 * The C code combines masks with `&`, `|`, `+` and `-`. Each operation is a named
 * function here, and the lemmas say when the arithmetic ones coincide with set
 * union and set difference.
 */
module Bits {

  /** The C `1ull << b`, for a shift amount below the word size. */
  function Shl(b: bv8): bv64
    requires b < 64
  {
    1 << b
  }

  /** The mask of the single leaf k. */
  function Bit(k: nat): bv64
    requires k < 64
  {
    CastBelow(k);
    Shl(k as bv8)
  }

  /** A leaf index below 64 survives the conversion to a shift amount. */
  lemma CastBelow(k: nat)
    requires k < 64
    ensures (k as bv8) as int == k && k as bv8 < 64
  {
  }

  /** `a` contains every leaf of `x` (the C test `(a & x) == x`). */
  predicate Contains(a: bv64, x: bv64) {
    a & x == x
  }

  /** `a` and `b` share no leaf. */
  predicate Disjoint(a: bv64, b: bv64) {
    a & b == 0
  }

  /** Set union of two masks (the C `|`). */
  function Union(a: bv64, b: bv64): bv64 {
    a | b
  }

  /** Set difference: the leaves of `a` outside `b`. */
  function Without(a: bv64, b: bv64): bv64 {
    a & !b
  }

  /** The C `uint64_t` subtraction `a - b`, modulo 2^64. */
  function Sub(a: bv64, b: bv64): bv64 {
    a - b
  }

  /** The C `uint64_t` addition `a + b`, modulo 2^64. */
  function Add(a: bv64, b: bv64): bv64 {
    a + b
  }

  /** The mask of all n leaves: the low n bits set. */
  function Full(n: nat): bv64
    requires n <= 64
  {
    if n == 0 then 0 else Union(Full(n - 1), Bit(n - 1))
  }

  /** The number of leaves under `a` (the C `popcount64`). */
  function Popcount(a: bv64): nat {
    PopcountFrom(a, 0)
  }

  /** The number of leaves k..63 under `a`. */
  function PopcountFrom(a: bv64, k: nat): nat
    requires k <= 64
    decreases 64 - k
  {
    if k == 64 then 0 else (if Contains(a, Bit(k)) then 1 else 0) + PopcountFrom(a, k + 1)
  }

  /**
   * The C idiom `u & -u`: the lowest set bit of u. It lies inside u; when u is
   * nonzero it is a single bit (it shares no bit with x - 1, the bits below
   * it) and u has no bit below it.
   */
  function LowestBit(u: bv64): (x: bv64)
    ensures Contains(u, x)
    ensures u != 0 ==> x != 0
  {
    u & -u
  }

  /**
   * For nonzero u, `u & -u` is a single bit (it shares no bit with x - 1, the
   * bits below it) and u has no bit below it.
   */
  lemma LowestBitSingle(u: bv64)
    requires u != 0
    ensures var x := LowestBit(u); Disjoint(x, Sub(x, 1)) && Disjoint(u, Sub(x, 1))
  {
  }

  /** `popcount64` counts the leaves under a mask: it is 0 exactly when no leaf is. */
  lemma PopcountZero(a: bv64)
    ensures Popcount(a) == 0 <==> forall m :: 0 <= m < 64 ==> !Contains(a, Bit(m))
  {
    PopcountFromZero(a, 0);
  }

  lemma {:induction false} PopcountFromZero(a: bv64, k: nat)
    requires k <= 64
    ensures PopcountFrom(a, k) == 0 <==> forall m :: k <= m < 64 ==> !Contains(a, Bit(m))
    decreases 64 - k
  {
    if k < 64 {
      PopcountFromZero(a, k + 1);
    }
  }

  // ---------------------------------------------------------------------
  // Single leaves and the full mask
  // ---------------------------------------------------------------------

  lemma BitNonzero(k: nat)
    requires k < 64
    ensures Bit(k) != 0
  {
  }

  lemma BitsDisjoint(k: nat, m: nat)
    requires k < 64 && m < 64 && k != m
    ensures Disjoint(Bit(k), Bit(m))
  {
    CastBelow(k);
    CastBelow(m);
    ShlDisjoint(k as bv8, m as bv8);
  }

  lemma ShlDisjoint(a: bv8, b: bv8)
    requires a < 64 && b < 64 && a != b
    ensures Disjoint(Shl(a), Shl(b))
  {
  }

  /** Every leaf below n lies under Full(n). */
  lemma {:induction false} LeafInFull(n: nat, k: nat)
    requires n <= 64 && k < n
    ensures Contains(Full(n), Bit(k))
  {
    UnionHalves(Full(n - 1), Bit(n - 1));
    if k < n - 1 {
      LeafInFull(n - 1, k);
      ContainsTrans(Full(n), Full(n - 1), Bit(k));
    }
  }

  /** A mask within Full(n) that holds every leaf below n is Full(n). */
  lemma FullFromLeaves(n: nat, x: bv64)
    requires n <= 64
    requires Contains(Full(n), x)
    requires forall k :: 0 <= k < n ==> Contains(x, Bit(k))
    ensures x == Full(n)
  {
    FullBelow(n, x);
    Antisymmetric(x, Full(n));
  }

  lemma {:induction false} FullBelow(m: nat, x: bv64)
    requires m <= 64
    requires forall k :: 0 <= k < m ==> Contains(x, Bit(k))
    ensures Contains(x, Full(m))
  {
    if m > 0 {
      FullBelow(m - 1, x);
      UnionInside(x, Full(m - 1), Bit(m - 1));
    }
  }

  // ---------------------------------------------------------------------
  // Set reasoning on masks
  // ---------------------------------------------------------------------

  /** Two masks containing each other are equal. */
  lemma Antisymmetric(a: bv64, b: bv64)
    requires Contains(a, b) && Contains(b, a)
    ensures a == b
  {
  }

  lemma ContainsTrans(a: bv64, b: bv64, c: bv64)
    requires Contains(a, b) && Contains(b, c)
    ensures Contains(a, c)
  {
  }

  /** A part of `a` shares nothing with what `a` shares nothing with. */
  lemma DisjointPart(a: bv64, b: bv64, c: bv64)
    requires Contains(a, b) && Disjoint(a, c)
    ensures Disjoint(b, c)
  {
  }

  lemma DisjointSymmetric(a: bv64, b: bv64)
    requires Disjoint(a, b)
    ensures Disjoint(b, a)
  {
  }

  /** A mask nested in and disjoint from another mask is empty. */
  lemma NestedDisjointEmpty(a: bv64, b: bv64)
    requires Contains(a, b) && Disjoint(a, b)
    ensures b == 0
  {
  }

  /** Both halves lie inside a union. */
  lemma UnionHalves(a: bv64, b: bv64)
    ensures Contains(Union(a, b), a) && Contains(Union(a, b), b)
  {
  }

  /** A mask holding both halves holds their union. */
  lemma UnionInside(x: bv64, a: bv64, b: bv64)
    requires Contains(x, a) && Contains(x, b)
    ensures Contains(x, Union(a, b))
  {
  }

  /** What is disjoint from both halves is disjoint from their union. */
  lemma UnionDisjoint(a: bv64, b: bv64, c: bv64)
    requires Disjoint(a, c) && Disjoint(b, c)
    ensures Disjoint(Union(a, b), c)
  {
  }

  /** A difference lies inside the mask it was taken from and misses what was removed. */
  lemma WithoutParts(a: bv64, b: bv64)
    ensures Contains(a, Without(a, b)) && Disjoint(b, Without(a, b))
  {
  }

  /** Putting a removed part back restores the mask. */
  lemma WithoutRejoin(v: bv64, u: bv64)
    requires Contains(v, u)
    ensures Union(u, Without(v, u)) == v
  {
  }

  /** Removing a mask from itself leaves nothing. */
  lemma WithoutSelf(u: bv64)
    ensures Without(u, u) == 0
  {
  }

  lemma UnionEmpty(w: bv64)
    ensures Union(0, w) == w
  {
  }

  /** A nonzero b that contains a, or is disjoint from it, is not inside a unless equal to it. */
  lemma NotAbove(a: bv64, b: bv64)
    requires b != 0 && a != b && (Contains(b, a) || Disjoint(a, b))
    ensures !Contains(a, b)
  {
  }

  lemma ContainsSelf(u: bv64)
    ensures Contains(u, u)
  {
  }

  // ---------------------------------------------------------------------
  // C arithmetic on nested and disjoint masks
  // ---------------------------------------------------------------------

  /** When a and b share no leaf, the C sum `a + b` is the set union. */
  lemma AddDisjoint(a: bv64, b: bv64)
    requires Disjoint(a, b)
    ensures Add(a, b) == Union(a, b)
  {
    AddDisjointBits(a, b);
  }

  lemma AddDisjointBits(a: bv64, b: bv64)
    requires a & b == 0
    ensures a + b == a | b
  {
  }

  /** When u lies inside v, the C difference `v - u` is the set difference. */
  lemma SubNested(v: bv64, u: bv64)
    requires Contains(v, u)
    ensures Sub(v, u) == Without(v, u)
  {
    SubNestedBits(v, u);
  }

  /** v - u is the part of v outside u: adding u back to that part gives v. */
  lemma SubNestedBits(v: bv64, u: bv64)
    requires v & u == u
    ensures v - u == v & !u
  {
    ComplementDisjointBits(v, u);
    AddDisjointBits(v & !u, u);
    RejoinBits(v, u);
    AddThenSubBits(v & !u, u);
  }

  lemma ComplementDisjointBits(v: bv64, u: bv64)
    ensures (v & !u) & u == 0
  {
  }

  lemma RejoinBits(v: bv64, u: bv64)
    requires v & u == u
    ensures (v & !u) | u == v
  {
  }

  lemma AddThenSubBits(w: bv64, u: bv64)
    ensures (w + u) - u == w
  {
  }
}

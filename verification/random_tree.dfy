/**
 * `t64_random` (tree64.c): a random ranked tree built bottom-up. A buffer u
 * holds the j live clusters, initially the n leaves. Each step joins two of
 * them into the next row of v and compacts the buffer to j-1 entries.
 * The PCG generator is replaced by the sequence of bounded draws it returns.
 */
module RandomTree {
  import opened Bits
  import opened Tree64

  /** One pair of draws: a = boundedrand(j), b = boundedrand(j-1). */
  datatype Draw = Draw(a: nat, b: nat)

  /** Draws for a run that starts with m live clusters: step i has j = m-i. */
  predicate DrawsFit(m: nat, draws: seq<Draw>) {
    && |draws| < m
    && forall i :: 0 <= i < |draws| ==> draws[i].a < m - i && draws[i].b < m - i - 1
  }

  /** The buffer's initial contents: the leaf masks 1<<0 .. 1<<(n-1). */
  function Leaves(n: nat): (u: seq<bv64>)
    requires n <= 64
    ensures |u| == n && forall k :: 0 <= k < n ==> u[k] == Bit(k)
  {
    seq(n, k requires 0 <= k < n => Bit(k))
  }

  /** The index of the partner of a: b itself, or the former last entry when b == a. */
  function Partner(u: seq<bv64>, a: nat, b: nat): nat
    requires a < |u| && b < |u| - 1
  {
    if b == a then |u| - 1 else b
  }

  /** The new row v[i]: u[a] joined with entry b after the last entry moved into a. */
  function JoinNode(u: seq<bv64>, a: nat, b: nat): (x: bv64)
    requires a < |u| && b < |u| - 1
    ensures x == Union(u[a], u[Partner(u, a, b)])
  {
    Union(u[a], u[a := u[|u| - 1]][b])
  }

  /** The compacted buffer: the last entry moved into a, the new node into b, one entry fewer. */
  function JoinPool(u: seq<bv64>, a: nat, b: nat): (u': seq<bv64>)
    requires a < |u| && b < |u| - 1
    ensures |u'| == |u| - 1 && u'[b] == JoinNode(u, a, b)
  {
    u[a := u[|u| - 1]][b := JoinNode(u, a, b)][..|u| - 1]
  }

  /** The index of the old entry that lands at position m != b of the compacted buffer. */
  function Source(u: seq<bv64>, a: nat, b: nat, m: nat): nat
    requires a < |u| && b < |u| - 1
  {
    if m == a then |u| - 1 else m
  }

  /**
   * The two joined entries are distinct; every other position of the compacted
   * buffer holds an old entry other than those two.
   */
  lemma JoinShape(u: seq<bv64>, a: nat, b: nat)
    requires a < |u| && b < |u| - 1
    ensures Partner(u, a, b) < |u| && Partner(u, a, b) != a
    ensures forall m :: 0 <= m < |u| - 1 && m != b ==>
      Source(u, a, b, m) < |u| && JoinPool(u, a, b)[m] == u[Source(u, a, b, m)]
    ensures forall m :: 0 <= m < |u| - 1 && m != b ==>
      Source(u, a, b, m) != a && Source(u, a, b, m) != Partner(u, a, b)
  {
  }

  /** Distinct positions of the compacted buffer come from distinct old entries. */
  lemma SourceInjective(u: seq<bv64>, a: nat, b: nat, m1: nat, m2: nat)
    requires a < |u| && b < |u| - 1
    requires m1 < |u| - 1 && m2 < |u| - 1 && m1 != b && m2 != b && m1 != m2
    ensures Source(u, a, b, m1) != Source(u, a, b, m2)
  {
  }

  /** Every old entry except the two joined ones survives at some position other than b. */
  lemma SourceOnto(u: seq<bv64>, a: nat, b: nat, k: nat)
    requires a < |u| && b < |u| - 1 && k < |u| && k != a && k != Partner(u, a, b)
    ensures exists m :: 0 <= m < |u| - 1 && m != b && Source(u, a, b, m) == k
  {
    if k == |u| - 1 {
      assert Source(u, a, b, a) == k;
    } else {
      assert Source(u, a, b, k) == k;
    }
  }

  /** The live entries u[..n-i] after i steps of the C loop. */
  function Pool(n: nat, draws: seq<Draw>, i: nat): (u: seq<bv64>)
    requires n <= 64 && DrawsFit(n, draws) && i <= |draws|
    ensures |u| == n - i
    decreases i
  {
    if i == 0 then Leaves(n)
    else JoinPool(Pool(n, draws, i - 1), draws[i - 1].a, draws[i - 1].b)
  }

  /** The rows v[..i] written by the first i steps of the C loop. */
  function Rows(n: nat, draws: seq<Draw>, i: nat): (v: seq<bv64>)
    requires n <= 64 && DrawsFit(n, draws) && i <= |draws|
    ensures |v| == i
    decreases i
  {
    if i == 0 then []
    else Rows(n, draws, i - 1) + [JoinNode(Pool(n, draws, i - 1), draws[i - 1].a, draws[i - 1].b)]
  }

  /** The tree `t64_random` writes into v[..n-1] for the given draws. */
  function Generate(n: nat, draws: seq<Draw>): (v: seq<bv64>)
    requires 2 <= n <= 64 && |draws| == n - 1 && DrawsFit(n, draws)
    ensures |v| == n - 1
  {
    Rows(n, draws, n - 1)
  }

  // ---------------------------------------------------------------------
  // The buffer invariant
  // ---------------------------------------------------------------------

  /** Live entries are nonzero, within the n-bit mask, and pairwise disjoint. */
  ghost predicate LiveDisjoint(n: nat, u: seq<bv64>)
    requires n <= 64
  {
    RowsInside(n, u) && LivePairs(u)
  }

  ghost predicate LivePairs(u: seq<bv64>) {
    forall m1, m2 :: 0 <= m1 < |u| && 0 <= m2 < |u| && m1 != m2 ==> Disjoint(u[m1], u[m2])
  }

  /** Every leaf lies in some live entry (with LiveDisjoint: they union to the full mask). */
  ghost predicate LiveCovers(n: nat, u: seq<bv64>)
    requires n <= 64
  {
    forall k: nat :: k < n ==> Covered(u, Bit(k))
  }

  /** Some live entry holds the leaf mask x. */
  ghost predicate Covered(u: seq<bv64>, x: bv64) {
    exists m :: 0 <= m < |u| && Contains(u[m], x)
  }

  /** Every live entry is a leaf or an already written row. */
  ghost predicate LiveClusters(n: nat, u: seq<bv64>, rows: seq<bv64>)
    requires n <= 64
  {
    forall m :: 0 <= m < |u| ==> IsCluster(n, rows, |rows|, u[m])
  }

  /** Every written row is inside or disjoint from every live entry. */
  ghost predicate LiveLaminar(u: seq<bv64>, rows: seq<bv64>) {
    forall j, m :: 0 <= j < |rows| && 0 <= m < |u| ==> Contains(u[m], rows[j]) || Disjoint(rows[j], u[m])
  }

  /** Before each step of the C loop: the live entries and the rows written so far. */
  ghost predicate GenInv(n: nat, u: seq<bv64>, rows: seq<bv64>) {
    && 2 <= n <= 64
    && 1 <= |u| && |u| + |rows| == n
    && LiveDisjoint(n, u)
    && LiveCovers(n, u)
    && LiveClusters(n, u, rows)
    && LiveLaminar(u, rows)
    && (|rows| > 0 ==> exists m :: 0 <= m < |u| && u[m] == rows[|rows| - 1])
    && RankedRows(n, rows)
  }

  lemma LeavesInv(n: nat)
    requires 2 <= n <= 64
    ensures GenInv(n, Leaves(n), [])
  {
    LeavesDisjoint(n);
    LeavesCover(n);
    LeavesClusters(n);
  }

  lemma LeavesDisjoint(n: nat)
    requires n <= 64
    ensures LiveDisjoint(n, Leaves(n))
  {
    var u := Leaves(n);
    forall m | 0 <= m < n
      ensures u[m] != 0 && Contains(Full(n), u[m])
    {
      BitNonzero(m);
      LeafInFull(n, m);
    }
    forall m1, m2 | 0 <= m1 < n && 0 <= m2 < n && m1 != m2
      ensures Disjoint(u[m1], u[m2])
    {
      BitsDisjoint(m1, m2);
    }
  }

  lemma LeavesCover(n: nat)
    requires n <= 64
    ensures LiveCovers(n, Leaves(n))
  {
    var u := Leaves(n);
    forall k: nat | k < n
      ensures Covered(u, Bit(k))
    {
      ContainsSelf(Bit(k));
      assert Contains(u[k], Bit(k));
    }
  }

  lemma LeavesClusters(n: nat)
    requires n <= 64
    ensures LiveClusters(n, Leaves(n), [])
  {
    var u := Leaves(n);
    forall m | 0 <= m < n
      ensures IsCluster(n, [], 0, u[m])
    {
      assert u[m] == Bit(m);
    }
  }

  /** A cluster available at rank i stays available when rows are appended. */
  lemma ClusterExtends(n: nat, rows: seq<bv64>, x: bv64, i: nat, m: bv64)
    requires n <= 64 && i <= |rows| && IsCluster(n, rows, i, m)
    ensures IsCluster(n, rows + [x], i, m)
  {
    if exists j :: 0 <= j < i && m == rows[j] {
      var j :| 0 <= j < i && m == rows[j];
      assert m == (rows + [x])[j];
    }
  }

  lemma ChildrenExtend(n: nat, rows: seq<bv64>, x: bv64, i: nat)
    requires n <= 64 && i < |rows| && HasChildren(n, rows, i)
    ensures HasChildren(n, rows + [x], i)
  {
    var a, b :| IsCluster(n, rows, i, a) && IsCluster(n, rows, i, b) && Disjoint(a, b) && Union(a, b) == rows[i];
    ClusterExtends(n, rows, x, i, a);
    ClusterExtends(n, rows, x, i, b);
  }

  lemma UnionNonzero(a: bv64, b: bv64)
    requires a != 0
    ensures Union(a, b) != 0
  {
  }

  /** A row inside or disjoint from both joined entries is inside or disjoint from their union. */
  lemma JoinLaminar(x: bv64, a: bv64, b: bv64)
    requires Contains(a, x) || Disjoint(x, a)
    requires Contains(b, x) || Disjoint(x, b)
    ensures Contains(Union(a, b), x) || Disjoint(x, Union(a, b))
  {
    UnionHalves(a, b);
    if Contains(a, x) {
      ContainsTrans(Union(a, b), a, x);
    } else if Contains(b, x) {
      ContainsTrans(Union(a, b), b, x);
    } else {
      DisjointSymmetric(x, a);
      DisjointSymmetric(x, b);
      UnionDisjoint(a, b, x);
      DisjointSymmetric(Union(a, b), x);
    }
  }

  /** An entry disjoint from both joined entries is disjoint from their union, both ways round. */
  lemma JoinDisjoint(y: bv64, a: bv64, b: bv64)
    requires Disjoint(a, y) && Disjoint(b, y)
    ensures Disjoint(Union(a, b), y) && Disjoint(y, Union(a, b))
  {
    UnionDisjoint(a, b, y);
    DisjointSymmetric(Union(a, b), y);
  }

  /** The union of two disjoint nonzero entries differs from any row inside or disjoint from one of them. */
  lemma JoinIsNew(x: bv64, a: bv64, b: bv64)
    requires a != 0 && b != 0 && Disjoint(a, b)
    requires Contains(a, x) || Disjoint(x, a)
    ensures x != Union(a, b)
  {
    UnionHalves(a, b);
    if x == Union(a, b) {
      if Contains(a, x) {
        ContainsTrans(a, x, b);
        NestedDisjointEmpty(a, b);
      } else {
        DisjointSymmetric(x, a);
        DisjointPart(x, a, a);
        NestedDisjointEmpty(x, a);
      }
    }
  }

  // One lemma per clause of GenInv after a step.

  lemma StepDisjoint(n: nat, u: seq<bv64>, a: nat, b: nat)
    requires n <= 64 && a < |u| && b < |u| - 1 && LiveDisjoint(n, u)
    ensures LiveDisjoint(n, JoinPool(u, a, b))
  {
    StepInside(n, u, a, b);
    StepPairs(u, a, b);
  }

  lemma StepInside(n: nat, u: seq<bv64>, a: nat, b: nat)
    requires n <= 64 && a < |u| && b < |u| - 1 && RowsInside(n, u)
    ensures RowsInside(n, JoinPool(u, a, b))
  {
    var u', q := JoinPool(u, a, b), Partner(u, a, b);
    JoinShape(u, a, b);
    UnionNonzero(u[a], u[q]);
    UnionInside(Full(n), u[a], u[q]);
    forall m | 0 <= m < |u'|
      ensures u'[m] != 0 && Contains(Full(n), u'[m])
    {
    }
  }

  lemma StepPairs(u: seq<bv64>, a: nat, b: nat)
    requires a < |u| && b < |u| - 1 && LivePairs(u)
    ensures LivePairs(JoinPool(u, a, b))
  {
    var u', q := JoinPool(u, a, b), Partner(u, a, b);
    JoinShape(u, a, b);
    forall m1, m2 | 0 <= m1 < |u'| && 0 <= m2 < |u'| && m1 != m2
      ensures Disjoint(u'[m1], u'[m2])
    {
      if m1 == b {
        JoinDisjoint(u'[m2], u[a], u[q]);
      } else if m2 == b {
        JoinDisjoint(u'[m1], u[a], u[q]);
      } else {
        SourceInjective(u, a, b, m1, m2);
      }
    }
  }

  lemma StepCovers(n: nat, u: seq<bv64>, a: nat, b: nat)
    requires n <= 64 && a < |u| && b < |u| - 1 && LiveCovers(n, u)
    ensures LiveCovers(n, JoinPool(u, a, b))
  {
    forall k: nat | k < n
      ensures Covered(JoinPool(u, a, b), Bit(k))
    {
      StillCovered(u, a, b, Bit(k));
    }
  }

  /** A mask held by some live entry is still held by one after the join. */
  lemma StillCovered(u: seq<bv64>, a: nat, b: nat, x: bv64)
    requires a < |u| && b < |u| - 1 && Covered(u, x)
    ensures Covered(JoinPool(u, a, b), x)
  {
    var u', q := JoinPool(u, a, b), Partner(u, a, b);
    JoinShape(u, a, b);
    var m0 :| 0 <= m0 < |u| && Contains(u[m0], x);
    if m0 == a || m0 == q {
      UnionHalves(u[a], u[q]);
      ContainsTrans(u'[b], u[m0], x);
    } else {
      SourceOnto(u, a, b, m0);
      var m :| 0 <= m < |u| - 1 && m != b && Source(u, a, b, m) == m0;
      assert Contains(u'[m], x);
    }
  }

  lemma StepClusters(n: nat, u: seq<bv64>, rows: seq<bv64>, a: nat, b: nat)
    requires n <= 64 && a < |u| && b < |u| - 1 && LiveClusters(n, u, rows)
    ensures LiveClusters(n, JoinPool(u, a, b), rows + [JoinNode(u, a, b)])
  {
    var u', x := JoinPool(u, a, b), JoinNode(u, a, b);
    var rows' := rows + [x];
    JoinShape(u, a, b);
    forall m | 0 <= m < |u'|
      ensures IsCluster(n, rows', |rows'|, u'[m])
    {
      if m == b {
        assert u'[m] == rows'[|rows|];
      } else {
        ClusterExtends(n, rows, x, |rows|, u'[m]);
        if exists j :: 0 <= j < |rows| && u'[m] == rows[j] {
          var j :| 0 <= j < |rows| && u'[m] == rows[j];
          assert u'[m] == rows'[j];
        }
      }
    }
  }

  lemma StepLaminar(n: nat, u: seq<bv64>, rows: seq<bv64>, a: nat, b: nat)
    requires n <= 64 && a < |u| && b < |u| - 1 && LiveDisjoint(n, u) && LiveLaminar(u, rows)
    ensures LiveLaminar(JoinPool(u, a, b), rows + [JoinNode(u, a, b)])
  {
    var u', x, q := JoinPool(u, a, b), JoinNode(u, a, b), Partner(u, a, b);
    var rows' := rows + [x];
    JoinShape(u, a, b);
    forall j, m | 0 <= j < |rows'| && 0 <= m < |u'|
      ensures Contains(u'[m], rows'[j]) || Disjoint(rows'[j], u'[m])
    {
      if j == |rows| {
        if m == b {
          ContainsSelf(x);
        } else {
          JoinDisjoint(u'[m], u[a], u[q]);
        }
      } else if m == b {
        assert rows'[j] == rows[j];
        JoinLaminar(rows[j], u[a], u[q]);
      } else {
        assert rows'[j] == rows[j];
      }
    }
  }

  lemma StepRows(n: nat, u: seq<bv64>, rows: seq<bv64>, a: nat, b: nat)
    requires n <= 64 && a < |u| && b < |u| - 1 && LiveDisjoint(n, u) && LiveClusters(n, u, rows) && LiveLaminar(u, rows) && RankedRows(n, rows)
    ensures RankedRows(n, rows + [JoinNode(u, a, b)])
  {
    var x, q := JoinNode(u, a, b), Partner(u, a, b);
    JoinShape(u, a, b);
    UnionNonzero(u[a], u[q]);
    UnionInside(Full(n), u[a], u[q]);
    forall j | 0 <= j < |rows|
      ensures rows[j] != x && (Contains(x, rows[j]) || Disjoint(rows[j], x))
    {
      JoinIsNew(rows[j], u[a], u[q]);
      JoinLaminar(rows[j], u[a], u[q]);
    }
    StepChildren(n, u, rows, a, b);
    RowsAppend(n, rows, x);
  }

  /** The new row is the disjoint union of the two joined entries, both available to it. */
  lemma StepChildren(n: nat, u: seq<bv64>, rows: seq<bv64>, a: nat, b: nat)
    requires n <= 64 && a < |u| && b < |u| - 1 && LiveDisjoint(n, u) && LiveClusters(n, u, rows)
    ensures HasChildren(n, rows + [JoinNode(u, a, b)], |rows|)
  {
    var x, q := JoinNode(u, a, b), Partner(u, a, b);
    JoinShape(u, a, b);
    ClusterExtends(n, rows, x, |rows|, u[a]);
    ClusterExtends(n, rows, x, |rows|, u[q]);
    assert (rows + [x])[|rows|] == x;
  }

  /** Appending a new row that meets the per-row conditions keeps RankedRows. */
  lemma RowsAppend(n: nat, rows: seq<bv64>, x: bv64)
    requires n <= 64 && RankedRows(n, rows)
    requires x != 0 && Contains(Full(n), x)
    requires forall j :: 0 <= j < |rows| ==> rows[j] != x && (Contains(x, rows[j]) || Disjoint(rows[j], x))
    requires HasChildren(n, rows + [x], |rows|)
    ensures RankedRows(n, rows + [x])
  {
    AppendInside(n, rows, x);
    AppendDistinct(rows, x);
    AppendLaminar(rows, x);
    AppendJoined(n, rows, x);
  }

  lemma AppendInside(n: nat, rows: seq<bv64>, x: bv64)
    requires n <= 64 && RowsInside(n, rows) && x != 0 && Contains(Full(n), x)
    ensures RowsInside(n, rows + [x])
  {
    var t := rows + [x];
    forall k | 0 <= k < |t|
      ensures t[k] != 0 && Contains(Full(n), t[k])
    {
      if k < |rows| {
        assert t[k] == rows[k];
      }
    }
  }

  lemma AppendDistinct(rows: seq<bv64>, x: bv64)
    requires RowsDistinct(rows)
    requires forall j :: 0 <= j < |rows| ==> rows[j] != x
    ensures RowsDistinct(rows + [x])
  {
    var t := rows + [x];
    forall j, k | 0 <= j < k < |t|
      ensures t[j] != t[k]
    {
      assert t[j] == rows[j];
      if k < |rows| {
        assert t[k] == rows[k];
      }
    }
  }

  lemma AppendLaminar(rows: seq<bv64>, x: bv64)
    requires RowsLaminar(rows)
    requires forall j :: 0 <= j < |rows| ==> Contains(x, rows[j]) || Disjoint(rows[j], x)
    ensures RowsLaminar(rows + [x])
  {
    var t := rows + [x];
    forall j, k | 0 <= j < k < |t|
      ensures Contains(t[k], t[j]) || Disjoint(t[j], t[k])
    {
      assert t[j] == rows[j];
      if k < |rows| {
        assert t[k] == rows[k];
      }
    }
  }

  lemma AppendJoined(n: nat, rows: seq<bv64>, x: bv64)
    requires n <= 64 && RowsJoined(n, rows) && HasChildren(n, rows + [x], |rows|)
    ensures RowsJoined(n, rows + [x])
  {
    forall k | 0 <= k < |rows|
      ensures HasChildren(n, rows + [x], k)
    {
      ChildrenExtend(n, rows, x, k);
    }
  }

  /** One step of the C loop keeps the buffer invariant. */
  lemma StepInv(n: nat, u: seq<bv64>, rows: seq<bv64>, a: nat, b: nat)
    requires GenInv(n, u, rows) && a < |u| && b < |u| - 1
    ensures GenInv(n, JoinPool(u, a, b), rows + [JoinNode(u, a, b)])
  {
    StepDisjoint(n, u, a, b);
    StepCovers(n, u, a, b);
    StepClusters(n, u, rows, a, b);
    StepLaminar(n, u, rows, a, b);
    StepRows(n, u, rows, a, b);
    var u' := JoinPool(u, a, b);
    assert u'[b] == (rows + [JoinNode(u, a, b)])[|rows|];
  }

  /** With one live entry left, it is the full mask and the last row written. */
  lemma LastEntryIsRoot(n: nat, u: seq<bv64>, rows: seq<bv64>)
    requires GenInv(n, u, rows) && |u| == 1
    ensures RankedTree(n, rows)
  {
    forall k | 0 <= k < n
      ensures Contains(u[0], Bit(k))
    {
    }
    FullFromLeaves(n, u[0]);
  }

  /** The buffer invariant holds before every step. */
  lemma {:induction false} InvAt(n: nat, draws: seq<Draw>, i: nat)
    requires 2 <= n <= 64 && |draws| == n - 1 && DrawsFit(n, draws) && i <= |draws|
    ensures GenInv(n, Pool(n, draws, i), Rows(n, draws, i))
    decreases i
  {
    if i == 0 {
      LeavesInv(n);
    } else {
      InvAt(n, draws, i - 1);
      StepInv(n, Pool(n, draws, i - 1), Rows(n, draws, i - 1), draws[i - 1].a, draws[i - 1].b);
    }
  }

  /** Whatever the draws, `t64_random` writes a ranked tree over n leaves. */
  lemma GenerateRanked(n: nat, draws: seq<Draw>)
    requires 2 <= n <= 64 && |draws| == n - 1 && DrawsFit(n, draws)
    ensures RankedTree(n, Generate(n, draws))
  {
    InvAt(n, draws, n - 1);
    LastEntryIsRoot(n, Pool(n, draws, n - 1), Rows(n, draws, n - 1));
  }

  // ---------------------------------------------------------------------
  // The C function
  // ---------------------------------------------------------------------

  /**
   * `t64_random`: fill the buffer u with the n leaves, then for i = 0 .. n-2
   * take a < j and b < j-1 (j decremented in between) and join entries a and b
   * into v[i]. Entries of v past n-2 are not written.
   */
  method Random(n: nat, draws: seq<Draw>, v: array<bv64>)
    requires 2 <= n <= 64 && |draws| == n - 1 && DrawsFit(n, draws) && n - 1 <= v.Length
    modifies v
    ensures v[..n - 1] == Generate(n, draws)
    ensures v[n - 1..] == old(v[n - 1..])
    ensures RankedTree(n, v[..n - 1])
  {
    var u := LeafBuffer(n);
    assert u[..n] == Pool(n, draws, 0);
    var j := n;
    var i := 0;
    while i < n - 1
      invariant 0 <= i <= n - 1 && j == n - i
      invariant u[..j] == Pool(n, draws, i)
      invariant v[..i] == Rows(n, draws, i)
      invariant v[n - 1..] == old(v[n - 1..])
    {
      var a := draws[i].a;
      j := j - 1;
      var b := draws[i].b;
      StepAt(u, v, i, j, a, b, n, draws);
      i := i + 1;
    }
    GenerateRanked(n, draws);
  }

  /** The C loop `u[i] = 1ull << i` for i < n, in a buffer of n entries. */
  method LeafBuffer(n: nat) returns (u: array<bv64>)
    requires n <= 64
    ensures fresh(u) && u[..] == Leaves(n)
  {
    u := new bv64[n];
    var i := 0;
    while i < n
      invariant 0 <= i <= n
      invariant u[..i] == Leaves(n)[..i]
    {
      u[i] := Shl(i as bv8);
      i := i + 1;
    }
  }

  /** Writing row i extends the prefix by one and leaves everything from `hi` on alone. */
  lemma WriteRow(s: seq<bv64>, i: nat, hi: nat, x: bv64)
    requires i < hi <= |s|
    ensures s[i := x][..i + 1] == s[..i] + [x]
    ensures s[i := x][hi..] == s[hi..]
  {
  }

  /** Step i of the C loop, stated against Pool and Rows. */
  method StepAt(u: array<bv64>, v: array<bv64>, i: nat, j: nat, a: nat, b: nat,
                ghost n: nat, ghost draws: seq<Draw>)
    requires n <= 64 && DrawsFit(n, draws) && i < |draws| && i < n - 1 <= v.Length
    requires u != v && j + 1 == n - i && j < u.Length && a == draws[i].a && b == draws[i].b
    requires u[..j + 1] == Pool(n, draws, i) && v[..i] == Rows(n, draws, i)
    modifies u, v
    ensures u[..j] == Pool(n, draws, i + 1) && v[..i + 1] == Rows(n, draws, i + 1)
    ensures v[n - 1..] == old(v[n - 1..])
  {
    ghost var vs := v[..];
    JoinAt(u, v, i, j, a, b);
    WriteRow(vs, i, n - 1, v[i]);
  }

  /**
   * The body of the C loop once j has been decremented: v[i] = u[a], the last
   * live entry u[j] moves into a, v[i] |= u[b], and u[b] = v[i].
   */
  method JoinAt(u: array<bv64>, v: array<bv64>, i: nat, j: nat, a: nat, b: nat)
    requires u != v && i < v.Length && j < u.Length && a <= j && b < j
    modifies u, v
    ensures v[..] == old(v[..])[i := JoinNode(old(u[..j + 1]), a, b)]
    ensures u[..j] == JoinPool(old(u[..j + 1]), a, b)
  {
    ghost var u0 := u[..j + 1];
    ghost var p, q := u0[a], u0[a := u0[j]][b];
    ghost var x := JoinNode(u0, a, b);
    assert x == Union(p, q);
    v[i] := u[a];
    assert v[i] == p;
    u[a] := u[j];
    assert u[b] == q;
    v[i] := Union(v[i], u[b]);
    assert v[i] == x;
    u[b] := v[i];
    assert u[..j] == u0[a := u0[j]][b := x][..j];
  }
}

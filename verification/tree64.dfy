/**
 * The C implementation (tree64.c): ranked trees over n <= 64 leaves stored as
 * n-1 descendant masks indexed by rank, the `rank` lookup and the RNNI
 * distance. The random tree generator is in module RandomTree.
 */
module Tree64 {
  import opened Bits
  import opened Outcomes

  // ---------------------------------------------------------------------
  // Well-formed ranked trees
  // ---------------------------------------------------------------------

  /** `m` is available as a child of the node at rank i: a leaf, or a row below rank i. */
  ghost predicate IsCluster(n: nat, t: seq<bv64>, i: nat, m: bv64)
    requires n <= 64 && i <= |t|
  {
    (exists k :: 0 <= k < n && m == Bit(k)) || (exists j :: 0 <= j < i && m == t[j])
  }

  /** The node at rank i is the disjoint union of two clusters available to it. */
  ghost predicate HasChildren(n: nat, t: seq<bv64>, i: nat)
    requires n <= 64 && i < |t|
  {
    exists a, b :: IsCluster(n, t, i, a) && IsCluster(n, t, i, b) && Disjoint(a, b) && Union(a, b) == t[i]
  }

  /**
   * A ranked binary tree over n leaves: n-1 distinct nonzero masks within the
   * low n bits, the root (rank n-2) holding every leaf, each node the disjoint
   * union of two clusters formed before it, and any lower-ranked node either
   * inside a higher-ranked one or disjoint from it.
   */
  ghost predicate RankedTree(n: nat, t: seq<bv64>) {
    && 2 <= n <= 64
    && |t| == n - 1
    && t[n - 2] == Full(n)
    && RankedRows(n, t)
  }

  /** The conditions of RankedTree that any prefix of a ranked tree's rows meets. */
  ghost predicate RankedRows(n: nat, t: seq<bv64>)
    requires n <= 64
  {
    RowsInside(n, t) && RowsDistinct(t) && RowsLaminar(t) && RowsJoined(n, t)
  }

  ghost predicate RowsInside(n: nat, t: seq<bv64>)
    requires n <= 64
  {
    forall i :: 0 <= i < |t| ==> t[i] != 0 && Contains(Full(n), t[i])
  }

  ghost predicate RowsDistinct(t: seq<bv64>) {
    forall j, i :: 0 <= j < i < |t| ==> t[j] != t[i]
  }

  ghost predicate RowsLaminar(t: seq<bv64>) {
    forall j, i :: 0 <= j < i < |t| ==> Contains(t[i], t[j]) || Disjoint(t[j], t[i])
  }

  ghost predicate RowsJoined(n: nat, t: seq<bv64>)
    requires n <= 64
  {
    forall i :: 0 <= i < |t| ==> HasChildren(n, t, i)
  }

  // ---------------------------------------------------------------------
  // rank
  // ---------------------------------------------------------------------

  /** The lowest rank at or above `from` whose mask contains x. */
  function RankFrom(t: seq<bv64>, x: bv64, from: nat): (r: Result<nat>)
    requires from <= |t|
    ensures r.Ok? ==> from <= r.value < |t| && Contains(t[r.value], x)
    ensures r.Ok? ==> forall k :: from <= k < r.value ==> !Contains(t[k], x)
    ensures r.Fail? ==> r.error == NoAncestor && forall k :: from <= k < |t| ==> !Contains(t[k], x)
    decreases |t| - from
  {
    if from == |t| then Fail(NoAncestor)
    else if Contains(t[from], x) then Ok(from)
    else RankFrom(t, x, from + 1)
  }

  /** The rank of the lowest node of t containing x, or the failure `errx` reports. */
  function RankOf(t: seq<bv64>, x: bv64): Result<nat> {
    RankFrom(t, x, 0)
  }

  /** `rank`: a linear scan of ranks 0 .. n-2 that returns at the first match. */
  method Rank(n: nat, v: array<bv64>, x: bv64) returns (r: Result<nat>)
    requires 2 <= n && n - 1 <= v.Length
    ensures r == RankOf(v[..n - 1], x)
    ensures r.Ok? ==> r.value <= n - 2 && Contains(v[r.value], x)
    ensures r.Ok? ==> forall k :: 0 <= k < r.value ==> !Contains(v[k], x)
    ensures r.Fail? <==> forall k :: 0 <= k <= n - 2 ==> !Contains(v[k], x)
  {
    var i := 0;
    while i <= n - 2
      invariant 0 <= i <= n - 1
      invariant RankFrom(v[..n - 1], x, i) == RankOf(v[..n - 1], x)
    {
      if Contains(v[i], x) {
        return Ok(i);
      }
      i := i + 1;
    }
    return Fail(NoAncestor);
  }

  /** When the top row is the full mask, every cluster of the n leaves is found. */
  lemma RankFindsEveryCluster(n: nat, t: seq<bv64>, x: bv64)
    requires 2 <= n <= 64 && |t| == n - 1 && t[n - 2] == Full(n)
    requires Contains(Full(n), x)
    ensures RankOf(t, x).Ok?
  {
  }

  // ---------------------------------------------------------------------
  // One elementary move of t64_rnni_distance
  // ---------------------------------------------------------------------

  /**
   * The C search for a child of u: the highest rank at or below j whose mask u
   * contains. The C loop starts at j = r-1, the rank of u itself.
   */
  function ChildScan(t: seq<bv64>, j: int, u: bv64): (x: Result<bv64>)
    requires j < |t|
    ensures x.Ok? ==> Contains(u, x.value) && exists k :: 0 <= k <= j && x.value == t[k]
    ensures x.Fail? ==> x.error == NoChild && forall k :: 0 <= k <= j ==> !Contains(u, t[k])
    decreases j + 1
  {
    if j < 0 then Fail(NoChild)
    else if Contains(u, t[j]) then Ok(t[j])
    else ChildScan(t, j - 1, u)
  }

  /** The first probe of the child scan is u itself, so it always succeeds with x = u. */
  lemma ChildScanFindsU(t: seq<bv64>, r: nat)
    requires 0 < r < |t|
    ensures ChildScan(t, r - 1, t[r - 1]) == Ok(t[r - 1])
  {
    ContainsSelf(t[r - 1]);
  }

  /**
   * The child x of u = t[r-1] that the C code picks: the lowest leaf of u when
   * u is a cherry (two leaves), otherwise the result of the child scan.
   */
  function ChildOf(t: seq<bv64>, r: nat): (x: bv64)
    requires 0 < r < |t|
    ensures Contains(t[r - 1], x)
    ensures Popcount(t[r - 1]) == 2 ==> x == LowestBit(t[r - 1])
    ensures Popcount(t[r - 1]) != 2 ==> x == t[r - 1]
  {
    var u := t[r - 1];
    ChildScanFindsU(t, r);
    if Popcount(u) == 2 then LowestBit(u) else ChildScan(t, r - 1, u).value
  }

  /**
   * The NNI rewrite of the lower node u below v: with w = v - u and y = u - x,
   * the new mask is x + w when it lies inside c, else y + w.
   */
  function NniRow(v: bv64, u: bv64, x: bv64, c: bv64): (row: bv64)
    ensures Contains(c, Add(x, Sub(v, u))) ==> Contains(c, row)
  {
    var y := Sub(u, x);
    var w := Sub(v, u);
    if Contains(c, Add(x, w)) then Add(x, w) else Add(y, w)
  }

  /**
   * When x lies in u and u in v, the C arithmetic of NniRow is set algebra: v's
   * children are u and w = v minus u, u's are x and y = u minus x, and the NNI
   * regroups them as x with w (if that lies inside c) or y with w.
   */
  lemma NniRowSets(v: bv64, u: bv64, x: bv64, c: bv64)
    requires Contains(v, u) && Contains(u, x)
    ensures var w := Without(v, u);
      NniRow(v, u, x, c) ==
        if Contains(c, Union(x, w)) then Union(x, w) else Union(Without(u, x), w)
  {
    var w := Without(v, u);
    SubNested(v, u);
    SubNested(u, x);
    WithoutParts(v, u);
    WithoutParts(u, x);
    DisjointPart(u, x, w);
    DisjointPart(u, Without(u, x), w);
    AddDisjoint(x, w);
    AddDisjoint(Without(u, x), w);
  }

  /** The rewritten row stays inside v. */
  lemma NniRowInside(v: bv64, u: bv64, x: bv64, c: bv64)
    requires Contains(v, u) && Contains(u, x)
    ensures Contains(v, NniRow(v, u, x, c))
  {
    var w := Without(v, u);
    NniRowSets(v, u, x, c);
    WithoutParts(v, u);
    WithoutParts(u, x);
    ContainsTrans(v, u, x);
    ContainsTrans(v, u, Without(u, x));
    UnionInside(v, x, w);
    UnionInside(v, Without(u, x), w);
  }

  /** With x = u the NNI leaves v itself (if v lies inside c) or w = v minus u. */
  lemma NniRowWholeChild(v: bv64, u: bv64, c: bv64)
    requires Contains(v, u)
    ensures NniRow(v, u, u, c) == if Contains(c, v) then v else Without(v, u)
  {
    ContainsSelf(u);
    NniRowSets(v, u, u, c);
    WithoutRejoin(v, u);
    WithoutSelf(u);
    UnionEmpty(Without(v, u));
  }

  /**
   * One move at rank r towards target cluster c: a rank swap of rows r and r-1
   * when they share no leaf, otherwise an NNI that rewrites row r-1 only.
   */
  function Move(t: seq<bv64>, r: nat, c: bv64): (t': seq<bv64>)
    requires 0 < r < |t|
    ensures |t'| == |t|
    ensures forall k :: 0 <= k < |t| && k != r && k != r - 1 ==> t'[k] == t[k]
  {
    var v := t[r];
    var u := t[r - 1];
    if !Disjoint(v, u) then t[r - 1 := NniRow(v, u, ChildOf(t, r), c)]
    else t[r := u][r - 1 := v]
  }

  /** Disjoint rows: ranks r and r-1 are exchanged, the multiset of masks is kept. */
  lemma MoveSwaps(t: seq<bv64>, r: nat, c: bv64)
    requires 0 < r < |t| && Disjoint(t[r], t[r - 1])
    ensures Move(t, r, c)[r] == t[r - 1] && Move(t, r, c)[r - 1] == t[r]
    ensures multiset(Move(t, r, c)) == multiset(t)
  {
    var v, u := t[r], t[r - 1];
    var t' := Move(t, r, c);
    assert t' == t[r := u][r - 1 := v];
    assert t == t[..r - 1] + [u, v] + t[r + 1..];
    assert t' == t[..r - 1] + [v, u] + t[r + 1..];
    assert multiset([v, u]) == multiset([u, v]);
  }

  /** Overlapping rows: the move is the NNI of row r-1. */
  lemma MoveNni(t: seq<bv64>, r: nat, c: bv64)
    requires 0 < r < |t| && !Disjoint(t[r], t[r - 1])
    ensures Move(t, r, c) == t[r - 1 := NniRow(t[r], t[r - 1], ChildOf(t, r), c)]
  {
  }

  /** Nested rows, u = t[r-1] inside v = t[r]: row r keeps v and row r-1 is rewritten inside v. */
  lemma MoveNested(t: seq<bv64>, r: nat, c: bv64)
    requires 0 < r < |t| && t[r - 1] != 0 && Contains(t[r], t[r - 1])
    ensures Move(t, r, c)[r] == t[r]
    ensures Contains(t[r], Move(t, r, c)[r - 1])
  {
    NestedOverlap(t[r], t[r - 1]);
    MoveNni(t, r, c);
    NniRowInside(t[r], t[r - 1], ChildOf(t, r), c);
  }

  /**
   * Nested rows where u is a cherry: x is the lowest leaf of u, and row r-1
   * becomes x with w = v minus u when that lies inside c, else the other leaf
   * of u with w.
   */
  lemma MoveNniCherry(t: seq<bv64>, r: nat, c: bv64)
    requires 0 < r < |t| && t[r - 1] != 0 && Contains(t[r], t[r - 1])
    requires Popcount(t[r - 1]) == 2
    ensures var v, u := t[r], t[r - 1];
      var x, w := LowestBit(u), Without(v, u);
      Move(t, r, c)[r - 1] ==
        if Contains(c, Union(x, w)) then Union(x, w) else Union(Without(u, x), w)
  {
    NestedOverlap(t[r], t[r - 1]);
    MoveNni(t, r, c);
    NniRowSets(t[r], t[r - 1], ChildOf(t, r), c);
  }

  /**
   * Nested rows where u is not a cherry: the scan yields x = u, so row r-1
   * becomes v itself when v lies inside c and w = v minus u otherwise.
   */
  lemma MoveNniWhole(t: seq<bv64>, r: nat, c: bv64)
    requires 0 < r < |t| && t[r - 1] != 0 && Contains(t[r], t[r - 1])
    requires Popcount(t[r - 1]) != 2
    ensures Move(t, r, c)[r - 1] == if Contains(c, t[r]) then t[r] else Without(t[r], t[r - 1])
  {
    NestedOverlap(t[r], t[r - 1]);
    MoveNni(t, r, c);
    NniRowWholeChild(t[r], t[r - 1], c);
  }

  lemma NestedOverlap(v: bv64, u: bv64)
    requires u != 0 && Contains(v, u)
    ensures !Disjoint(v, u)
  {
  }

  /**
   * The C inner loop for target c at rank i: moves at ranks r, r-1, ..., i+1,
   * which carry the node at rank r down to rank i. Rows outside ranks i..r are
   * never touched.
   */
  function Drag(t: seq<bv64>, r: nat, c: bv64, i: nat): (t': seq<bv64>)
    requires r < |t|
    ensures |t'| == |t|
    ensures forall k :: 0 <= k < |t| && (k < i || r < k) ==> t'[k] == t[k]
    decreases r
  {
    if r <= i then t else Drag(Move(t, r, c), r - 1, c, i)
  }

  /**
   * The C outer loop from rank i down to rank 0: the number of moves, or the
   * failure of `rank` when some target cluster has no ancestor in T1.
   */
  function Run(t: seq<bv64>, R: seq<bv64>, i: int): (d: Result<nat>)
    requires |R| == |t| && i < |t|
    ensures d.Fail? ==> d.error == NoAncestor
    decreases i + 1
  {
    if i < 0 then Ok(0)
    else match RankOf(t, R[i])
      case Fail(e) => Fail(e)
      case Ok(r) =>
        if r > i then AddMoves(r - i, Run(Drag(t, r, R[i], i), R, i - 1))
        else Run(t, R, i - 1)
  }

  /**
   * Each round adds at most |t|-1-i moves, so the count after rounds i .. 0
   * stays below (i+1)*|t|; with |t| <= 63 the uint64 counter `d` cannot wrap.
   */
  lemma {:induction false} RunBound(t: seq<bv64>, R: seq<bv64>, i: int)
    requires |R| == |t| && -1 <= i < |t|
    ensures Run(t, R, i).Ok? ==> Run(t, R, i).value <= (i + 1) * |t|
    decreases i + 1
  {
    if i >= 0 {
      match RankOf(t, R[i])
      case Fail(_) =>
      case Ok(r) =>
        assert (i + 1) * |t| == i * |t| + |t|;
        if r > i {
          RunBound(Drag(t, r, R[i], i), R, i - 1);
        } else {
          RunBound(t, R, i - 1);
        }
    }
  }

  /** In a ranked tree no node below rank i contains the node at rank i. */
  lemma RankOfOwnRow(n: nat, t: seq<bv64>, i: nat)
    requires RankedTree(n, t) && i < |t|
    ensures RankOf(t, t[i]) == Ok(i)
  {
    ContainsSelf(t[i]);
    forall k | 0 <= k < i
      ensures !Contains(t[k], t[i])
    {
      NotAbove(t[k], t[i]);
    }
  }

  /**
   * With R == T the copy is never changed: every R[i] is found at rank i, so no
   * move is made and the distance of a ranked tree from itself is 0.
   */
  lemma {:induction false} SelfDistanceFrom(n: nat, t: seq<bv64>, i: int)
    requires RankedTree(n, t) && i < |t|
    ensures Run(t, t, i) == Ok(0)
    decreases i + 1
  {
    if i >= 0 {
      RankOfOwnRow(n, t, i);
      SelfDistanceFrom(n, t, i - 1);
    }
  }

  lemma SelfDistance(n: nat, t: seq<bv64>)
    requires RankedTree(n, t)
    ensures Run(t, t, n - 2) == Ok(0)
  {
    SelfDistanceFrom(n, t, n - 2);
  }

  /**
   * `rank`'s errx is unreachable on well-formed input: when T and R are
   * ranked trees over the same n leaves, every R[i] finds an ancestor in T1.
   */
  lemma RankedNeverFails(n: nat, T: seq<bv64>, R: seq<bv64>)
    requires RankedTree(n, T) && RankedTree(n, R)
    ensures Run(T, R, n - 2).Ok?
  {
    RunKeepsRoot(n, T, R, n - 2, n - 2);
  }

  /**
   * While T1 holds the full mask in some row p, rank always succeeds, and the
   * moves keep the full mask in some row.
   */
  lemma {:induction false} RunKeepsRoot(n: nat, t: seq<bv64>, R: seq<bv64>, i: int, p: nat)
    requires n <= 64 && |R| == |t| && -1 <= i < |t| && p < |t| && t[p] == Full(n)
    requires RowsInside(n, R)
    ensures Run(t, R, i).Ok?
    decreases i + 1
  {
    if i >= 0 {
      var c := R[i];
      assert Contains(t[p], c);
      var r := RankOf(t, c).value;
      assert r <= p;
      if r > i {
        var q := DragKeepsRoot(n, t, r, c, i, p);
        RunKeepsRoot(n, Drag(t, r, c, i), R, i - 1, q);
      } else {
        RunKeepsRoot(n, t, R, i - 1, p);
      }
    }
  }

  /**
   * A full row at or above the current rank r survives the inner loop: a swap
   * at r moves it to r-1, and an NNI at r rewrites only row r-1.
   */
  lemma {:induction false} DragKeepsRoot(n: nat, t: seq<bv64>, r: nat, c: bv64, i: nat, p: nat)
    returns (q: nat)
    requires n <= 64 && r <= p < |t| && t[p] == Full(n)
    ensures q < |t| && Drag(t, r, c, i)[q] == Full(n)
    decreases r
  {
    if r <= i {
      return p;
    }
    var t' := Move(t, r, c);
    var p' := p;
    if p == r {
      if Disjoint(t[r], t[r - 1]) {
        MoveSwaps(t, r, c);
        p' := r - 1;
      } else {
        MoveNni(t, r, c);
      }
    }
    assert t'[p'] == Full(n);
    q := DragKeepsRoot(n, t', r - 1, c, i, p');
  }

  /**
   * `t64_rnni_distance`: copy T into T1, then for each rank i from the top
   * down, find the rank r of R[i] in T1 and apply moves until it reaches i,
   * counting them.
   */
  method RnniDistance(n: nat, T: array<bv64>, R: array<bv64>) returns (d: Result<nat>)
    requires 2 <= n <= 64 && n - 1 <= T.Length && n - 1 <= R.Length
    ensures d == Run(T[..n - 1], R[..n - 1], n - 2)
  {
    var T1 := CopyRows(T, n - 1);
    ghost var R0 := R[..n - 1];
    ghost var total := Run(T1[..], R0, n - 2);
    var dist: nat := 0;
    var i: int := n - 2;
    while i >= 0
      invariant -1 <= i <= n - 2 && T1.Length == n - 1
      invariant total == AddMoves(dist, Run(T1[..], R0, i))
    {
      var c := R[i];
      var moves := Round(n, T1, c, i, R0, total, dist);
      if moves.Fail? {
        return Fail(moves.error);
      }
      dist := dist + moves.value;
      i := i - 1;
    }
    return Ok(dist);
  }

  /** Round's bookkeeping: the failure of `rank` ends Run, otherwise its moves are counted. */
  lemma RoundStep(t0: seq<bv64>, t1: seq<bv64>, R: seq<bv64>, i: nat, rank: Result<nat>, m: nat,
                  total: Result<nat>, dist: nat)
    requires |R| == |t0| && i < |t0| && rank == RankOf(t0, R[i])
    requires total == AddMoves(dist, Run(t0, R, i))
    requires rank.Ok? ==> t1 == Drag(t0, rank.value, R[i], i)
    requires rank.Ok? ==> m == if rank.value > i then rank.value - i else 0
    ensures rank.Fail? ==> total == Fail(NoAncestor)
    ensures rank.Ok? ==> |t1| == |t0| && total == AddMoves(dist + m, Run(t1, R, i - 1))
  {
    if rank.Ok? {
      AddMovesTwice(dist, m, Run(t1, R, i - 1));
    }
  }

  method Round(n: nat, T1: array<bv64>, c: bv64, i: nat, ghost R0: seq<bv64>,
               ghost total: Result<nat>, ghost dist: nat) returns (moves: Result<nat>)
    requires 2 <= n && T1.Length == n - 1 && i < n - 1 && |R0| == n - 1 && c == R0[i]
    requires total == AddMoves(dist, Run(T1[..], R0, i))
    modifies T1
    ensures moves.Fail? ==> total == Fail(NoAncestor) && moves.error == NoAncestor
    ensures moves.Fail? ==> T1[..] == old(T1[..])
    ensures moves.Ok? ==> RankOf(old(T1[..]), c).Ok?
    ensures moves.Ok? ==> T1[..] == Drag(old(T1[..]), RankOf(old(T1[..]), c).value, c, i)
    ensures moves.Ok? ==> total == AddMoves(dist + moves.value, Run(T1[..], R0, i - 1))
  {
    ghost var t0 := T1[..];
    var rank := Rank(n, T1, c);
    assert T1[..n - 1] == t0;
    var m := 0;
    if rank.Ok? {
      m := DragAt(T1, rank.value, c, i);
    }
    RoundStep(t0, T1[..], R0, i, rank, m, total, dist);
    if rank.Fail? {
      return Fail(NoAncestor);
    }
    return Ok(m);
  }

  method CopyRows(T: array<bv64>, m: nat) returns (T1: array<bv64>)
    requires m <= T.Length
    ensures fresh(T1) && T1[..] == T[..m]
  {
    T1 := new bv64[m];
    var k := 0;
    while k < m
      invariant 0 <= k <= m
      invariant T1[..k] == T[..k]
    {
      T1[k] := T[k];
      k := k + 1;
    }
  }

  /** The C inner loop: moves at ranks r0, r0-1, ..., i+1, returning how many. */
  method DragAt(T1: array<bv64>, r0: nat, c: bv64, i: nat) returns (moves: nat)
    requires r0 < T1.Length
    modifies T1
    ensures T1[..] == Drag(old(T1[..]), r0, c, i)
    ensures moves == if r0 > i then r0 - i else 0
  {
    ghost var goal := Drag(T1[..], r0, c, i);
    var r: nat := r0;
    moves := 0;
    while r > i
      invariant r <= r0 && (r0 > i ==> i <= r) && (r0 <= i ==> r == r0)
      invariant r < T1.Length && goal == Drag(T1[..], r, c, i)
      invariant moves == r0 - r
    {
      ghost var t0 := T1[..];
      MoveAt(T1, r, c);
      DragStep(t0, T1[..], r, c, i, goal);
      moves := moves + 1;
      r := r - 1;
    }
  }

  lemma DragStep(t0: seq<bv64>, t1: seq<bv64>, r: nat, c: bv64, i: nat, goal: seq<bv64>)
    requires i < r < |t0| && t1 == Move(t0, r, c) && goal == Drag(t0, r, c, i)
    ensures goal == Drag(t1, r - 1, c, i)
  {
  }

  /**
   * The body of the C inner loop at rank r: an NNI or a rank swap of T1[r] and
   * T1[r-1], with the child scan written as the C loop.
   */
  method MoveAt(T1: array<bv64>, r: nat, c: bv64)
    requires 0 < r < T1.Length
    modifies T1
    ensures T1[..] == Move(old(T1[..]), r, c)
  {
    var v := T1[r];
    var u := T1[r - 1];
    if !Disjoint(v, u) {
      var x: bv64;
      if Popcount(u) == 2 {
        x := LowestBit(u);
      } else {
        var j: int := r - 1;
        x := 0;
        while j >= 0
          invariant -1 <= j <= r - 1
          invariant ChildScan(T1[..], j, u) == ChildScan(T1[..], r - 1, u)
          decreases j + 1
        {
          x := T1[j];
          if Contains(u, x) {
            break;
          }
          j := j - 1;
        }
        if j < 0 {
          assert false;
        }
      }
      var y := Sub(u, x);
      var w := Sub(v, u);
      if Contains(c, Add(x, w)) {
        T1[r - 1] := Add(x, w);
      } else {
        T1[r - 1] := Add(y, w);
      }
    } else {
      T1[r] := u;
      T1[r - 1] := v;
    }
  }
}

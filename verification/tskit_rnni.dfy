/**
 * The Python implementation (tskit-rnni.py): ranked trees whose nodes are 0/1
 * vectors over the leaves, one row per internal node in rank order, the
 * `bitwise_subset` and `rank` helpers, and `rnni_findpath`.
 *
 * A row is modelled as the set of leaf positions holding 1. The uint8
 * subtraction and addition of `rnni_findpath` become set difference and union;
 * NniOperands shows that their operands are always nested or disjoint, so no
 * entry leaves {0, 1}.
 */
module TskitRnni {
  import opened Outcomes

  // ---------------------------------------------------------------------
  // Well-formed ranked trees
  // ---------------------------------------------------------------------

  /** The root row of a tree over n leaves: every position 0 .. n-1. */
  function AllLeaves(n: nat): (s: set<nat>)
    ensures forall k: nat :: k in s <==> k < n
  {
    if n == 0 then {} else AllLeaves(n - 1) + {n - 1}
  }

  /** `m` is available as a child of the node at rank i: a leaf, or a row below rank i. */
  ghost predicate IsCluster(n: nat, t: seq<set<nat>>, i: nat, m: set<nat>)
    requires i <= |t|
  {
    (exists k :: 0 <= k < n && m == {k}) || (exists j :: 0 <= j < i && m == t[j])
  }

  /** The node at rank i is the disjoint union of two clusters available to it. */
  ghost predicate HasChildren(n: nat, t: seq<set<nat>>, i: nat)
    requires i < |t|
  {
    exists a, b :: IsCluster(n, t, i, a) && IsCluster(n, t, i, b) && a * b == {} && a + b == t[i]
  }

  /**
   * A ranked binary tree over n leaves, as `node_encodings` produces it: n-1
   * distinct nonempty rows within the n leaves, the root (rank n-2) holding
   * every leaf, each node the disjoint union of two clusters formed before it,
   * and any lower-ranked node either inside a higher-ranked one or disjoint
   * from it.
   */
  ghost predicate RankedTree(n: nat, t: seq<set<nat>>) {
    && 2 <= n
    && |t| == n - 1
    && t[n - 2] == AllLeaves(n)
    && (forall i :: 0 <= i < |t| ==> t[i] != {} && t[i] <= AllLeaves(n))
    && (forall j, i :: 0 <= j < i < |t| ==> t[j] != t[i])
    && (forall j, i :: 0 <= j < i < |t| ==> t[j] <= t[i] || t[j] * t[i] == {})
    && (forall i :: 0 <= i < |t| ==> HasChildren(n, t, i))
  }

  // ---------------------------------------------------------------------
  // bitwise_subset and rank
  // ---------------------------------------------------------------------

  /** `bitwise_subset`: a AND b equals a exactly when every position of a is set in b. */
  function BitwiseSubset(a: set<nat>, b: set<nat>): (r: bool)
    ensures r <==> forall k :: k in a ==> k in b
  {
    a * b == a
  }

  /** The lowest index at or above `from` whose row contains x. */
  function RankFrom(t: seq<set<nat>>, x: set<nat>, from: nat): (r: Result<nat>)
    requires from <= |t|
    ensures r.Ok? ==> from <= r.value < |t| && x <= t[r.value]
    ensures r.Ok? ==> forall k :: from <= k < r.value ==> !(x <= t[k])
    ensures r.Fail? ==> r.error == NoAncestor && forall k :: from <= k < |t| ==> !(x <= t[k])
    decreases |t| - from
  {
    if from == |t| then Fail(NoAncestor)
    else if t[from] * x == x then Ok(from)
    else RankFrom(t, x, from + 1)
  }

  /**
   * `rank`: the index of the first row of t containing every leaf of x, or
   * the ValueError raised when no row does.
   */
  function Rank(t: seq<set<nat>>, x: set<nat>): (r: Result<nat>)
    ensures r.Ok? ==> r.value < |t| && x <= t[r.value]
    ensures r.Ok? ==> forall k :: 0 <= k < r.value ==> !(x <= t[k])
    ensures r.Fail? <==> forall k :: 0 <= k < |t| ==> !(x <= t[k])
    ensures r.Fail? ==> r.error == NoAncestor
  {
    RankFrom(t, x, 0)
  }

  /** The first row containing x is at index j exactly when row j does and no lower row does. */
  lemma RankIs(t: seq<set<nat>>, x: set<nat>, j: nat)
    requires j < |t| && x <= t[j]
    requires forall k :: 0 <= k < j ==> !(x <= t[k])
    ensures Rank(t, x) == Ok(j)
  {
    var r := Rank(t, x);
    if r.Ok? {
      assert !(r.value < j);
      assert !(j < r.value);
    }
  }

  /** When the top row holds every leaf, every set of leaves has a rank. */
  lemma RankFindsEveryCluster(n: nat, t: seq<set<nat>>, x: set<nat>)
    requires 2 <= n && |t| == n - 1 && t[n - 2] == AllLeaves(n)
    requires forall k :: k in x ==> k < n
    ensures Rank(t, x).Ok?
  {
    assert x <= t[n - 2];
  }

  // ---------------------------------------------------------------------
  // One elementary move of rnni_findpath
  // ---------------------------------------------------------------------

  /** Every nonempty set of positions has a least element. */
  lemma HasLowest(s: set<nat>)
    requires s != {}
    ensures exists m :: m in s && forall y :: y in s ==> m <= y
  {
    var e :| e in s;
    LowestAtMost(s, e);
  }

  lemma {:induction false} LowestAtMost(s: set<nat>, e: nat)
    requires e in s
    ensures exists m :: m in s && forall y :: y in s ==> m <= y
    decreases e
  {
    if !(forall y :: y in s ==> e <= y) {
      var z :| z in s && z < e;
      LowestAtMost(s, z);
    }
  }

  /** `leaves[0]`: the lowest nonzero position of u. */
  ghost function Lowest(u: set<nat>): (m: nat)
    requires u != {}
    ensures m in u && forall y :: y in u ==> m <= y
  {
    HasLowest(u);
    var m :| m in u && forall y :: y in u ==> m <= y;
    m
  }

  /**
   * The Python search for a child of u: the first of the rows j, j-1, ..., 0
   * that u contains (the highest-indexed one), or the ValueError raised when
   * there is none.
   */
  function ChildScan(t: seq<set<nat>>, j: int, u: set<nat>): (x: Result<set<nat>>)
    requires j < |t|
    ensures x.Ok? ==> x.value <= u
    ensures x.Ok? ==> exists k :: 0 <= k <= j && x.value == t[k] && forall m :: k < m <= j ==> !(t[m] <= u)
    ensures x.Fail? ==> x.error == NoChild && forall k :: 0 <= k <= j ==> !(t[k] <= u)
    decreases j + 1
  {
    if j < 0 then Fail(NoChild)
    else if BitwiseSubset(t[j], u) then Ok(t[j])
    else ChildScan(t, j - 1, u)
  }

  /**
   * The child x of u = t[r-1] that the Python code picks: the singleton of the
   * lowest leaf when u holds exactly two leaves, otherwise the highest row
   * below rank r-1 that u contains.
   */
  ghost function ChildOf(t: seq<set<nat>>, r: nat): (x: Result<set<nat>>)
    requires 0 < r < |t|
    ensures x.Ok? ==> x.value <= t[r - 1]
    ensures |t[r - 1]| == 2 ==> x == Ok({Lowest(t[r - 1])})
    ensures |t[r - 1]| != 2 && x.Ok? ==>
      exists k :: 0 <= k < r - 1 && x.value == t[k] && forall m :: k < m < r - 1 ==> !(t[m] <= t[r - 1])
    ensures x.Fail? ==> x.error == NoChild && forall k :: 0 <= k < r - 1 ==> !(t[k] <= t[r - 1])
  {
    var u := t[r - 1];
    if |u| == 2 then Ok({Lowest(u)}) else ChildScan(t, r - 2, u)
  }

  /**
   * The NNI rewrite of the lower node u below v: with w = v - u and y = u - x,
   * the new row is x + w when it holds every leaf of c, else y + w.
   */
  function NniRow(v: set<nat>, u: set<nat>, x: set<nat>, c: set<nat>): (row: set<nat>)
    ensures c <= x + (v - u) ==> c <= row
    ensures u <= v && x <= u ==> row <= v
  {
    var w := v - u;
    var y := u - x;
    if BitwiseSubset(c, x + w) then x + w else y + w
  }

  /**
   * With u inside v and x inside u, each uint8 difference subtracts a nested
   * row and each sum adds disjoint rows, so the 0/1 arithmetic is the set
   * algebra used here: v splits into u and w, u into x and y.
   */
  lemma NniOperands(v: set<nat>, u: set<nat>, x: set<nat>)
    requires u <= v && x <= u
    ensures var w, y := v - u, u - x;
      w * u == {} && u + w == v && y * x == {} && x + y == u && x * w == {} && y * w == {}
  {
  }

  /**
   * The rewritten row lies inside v, and it is x + w exactly when x + w
   * holds every leaf of c; otherwise it is y + w.
   */
  lemma NniChoice(v: set<nat>, u: set<nat>, x: set<nat>, c: set<nat>)
    requires u <= v && x <= u
    ensures NniRow(v, u, x, c) <= v
    ensures c <= (x + (v - u)) ==> NniRow(v, u, x, c) == x + (v - u) && c <= NniRow(v, u, x, c)
    ensures !(c <= (x + (v - u))) ==> NniRow(v, u, x, c) == (u - x) + (v - u)
  {
  }

  /**
   * One move at rank r towards target cluster c: the NNI of row r-1 when u =
   * t[r-1] lies inside v = t[r], otherwise a swap of rows r and r-1. Rows
   * other than r and r-1 are never touched.
   */
  ghost function Move(t: seq<set<nat>>, r: nat, c: set<nat>): (m: Result<seq<set<nat>>>)
    requires 0 < r < |t|
    ensures m.Ok? ==> |m.value| == |t|
    ensures m.Ok? ==> forall k :: 0 <= k < |t| && k != r && k != r - 1 ==> m.value[k] == t[k]
    ensures m.Fail? ==> m.error == NoChild && t[r - 1] <= t[r] && |t[r - 1]| != 2
  {
    var v := t[r];
    var u := t[r - 1];
    if BitwiseSubset(u, v) then
      match ChildOf(t, r)
      case Fail(e) => Fail(e)
      case Ok(x) => Ok(t[r - 1 := NniRow(v, u, x, c)])
    else Ok(t[r := u][r - 1 := v])
  }

  /** u not inside v: rows r and r-1 are exchanged and the multiset of rows is kept. */
  lemma MoveSwaps(t: seq<set<nat>>, r: nat, c: set<nat>)
    requires 0 < r < |t| && !(t[r - 1] <= t[r])
    ensures Move(t, r, c).Ok?
    ensures Move(t, r, c).value[r] == t[r - 1] && Move(t, r, c).value[r - 1] == t[r]
    ensures multiset(Move(t, r, c).value) == multiset(t)
  {
    var v, u := t[r], t[r - 1];
    var t' := Move(t, r, c).value;
    assert t' == t[r := u][r - 1 := v];
    var uv: seq<set<nat>>, vu: seq<set<nat>> := [u, v], [v, u];
    assert t == t[..r - 1] + uv + t[r + 1..];
    assert t' == t[..r - 1] + vu + t[r + 1..];
    assert multiset(vu) == multiset(uv);
  }

  /**
   * u inside v: only row r-1 is written, with a row inside v; when the new
   * row is x + w it holds every leaf of c.
   */
  lemma MoveNested(t: seq<set<nat>>, r: nat, c: set<nat>)
    requires 0 < r < |t| && t[r - 1] <= t[r] && ChildOf(t, r).Ok?
    ensures Move(t, r, c).Ok?
    ensures var x, t' := ChildOf(t, r).value, Move(t, r, c).value;
      && t'[r] == t[r]
      && t'[r - 1] <= t[r]
      && (c <= x + (t[r] - t[r - 1]) ==> t'[r - 1] == x + (t[r] - t[r - 1]) && c <= t'[r - 1])
      && (!(c <= x + (t[r] - t[r - 1])) ==> t'[r - 1] == (t[r - 1] - x) + (t[r] - t[r - 1]))
  {
    NniChoice(t[r], t[r - 1], ChildOf(t, r).value, c);
  }

  /**
   * The move lowers the rank of c from r to r-1 when it is a swap, or when it
   * is an NNI that takes the x + w option.
   */
  lemma MoveLowersRank(t: seq<set<nat>>, r: nat, c: set<nat>)
    requires 0 < r < |t| && Rank(t, c) == Ok(r) && Move(t, r, c).Ok?
    requires t[r - 1] <= t[r] ==> c <= ChildOf(t, r).value + (t[r] - t[r - 1])
    ensures Rank(Move(t, r, c).value, c) == Ok(r - 1)
  {
    var t' := Move(t, r, c).value;
    if t[r - 1] <= t[r] {
      MoveNested(t, r, c);
    } else {
      MoveSwaps(t, r, c);
    }
    assert c <= t'[r - 1];
    RankIs(t', c, r - 1);
  }

  /**
   * The inner `while r > k` loop for target c: moves at ranks r, r-1, ...,
   * k+1, or the ValueError of the first move that finds no child. Rows outside
   * ranks k .. r are never touched.
   */
  ghost function Drag(t: seq<set<nat>>, r: nat, c: set<nat>, k: nat): (d: Result<seq<set<nat>>>)
    requires r < |t|
    ensures d.Ok? ==> |d.value| == |t|
    ensures d.Ok? ==> forall j :: 0 <= j < |t| && (j < k || r < j) ==> d.value[j] == t[j]
    ensures d.Fail? ==> d.error == NoChild
    decreases r
  {
    if r <= k then Ok(t)
    else match Move(t, r, c)
      case Fail(e) => Fail(e)
      case Ok(t') => Drag(t', r - 1, c, k)
  }

  /**
   * The outer loop from k = from up to len(R)-2: the number of moves, or the
   * ValueError of `rank` or of the child scan. R's last row is never a target.
   */
  ghost function Run(t: seq<set<nat>>, R: seq<set<nat>>, from: nat): (d: Result<nat>)
    decreases |R| - from
  {
    if from + 1 >= |R| then Ok(0)
    else match Rank(t, R[from])
      case Fail(e) => Fail(e)
      case Ok(r) =>
        if r > from then
          match Drag(t, r, R[from], from)
          case Fail(e) => Fail(e)
          case Ok(t') => AddMoves(r - from, Run(t', R, from + 1))
        else Run(t, R, from + 1)
  }

  /** The last row of R (the root) plays no part: replacing it leaves the result unchanged. */
  lemma {:induction false} RunIgnoresRoot(t: seq<set<nat>>, R: seq<set<nat>>, c: set<nat>, from: nat)
    requires |R| >= 1
    ensures Run(t, R, from) == Run(t, R[|R| - 1 := c], from)
    decreases |R| - from
  {
    var R' := R[|R| - 1 := c];
    if from + 1 < |R| {
      assert R'[from] == R[from];
      match Rank(t, R[from])
      case Fail(_) =>
      case Ok(r) =>
        if r > from {
          match Drag(t, r, R[from], from)
          case Fail(_) =>
          case Ok(t') => RunIgnoresRoot(t', R, c, from + 1);
        } else {
          RunIgnoresRoot(t, R, c, from + 1);
        }
    }
  }

  /** In a ranked tree the first row containing row i is row i itself. */
  lemma RankOfOwnRow(n: nat, t: seq<set<nat>>, i: nat)
    requires RankedTree(n, t) && i < |t|
    ensures Rank(t, t[i]) == Ok(i)
  {
    forall k | 0 <= k < i
      ensures !(t[i] <= t[k])
    {
      assert t[k] != t[i];
      assert t[k] <= t[i] || t[k] * t[i] == {};
    }
    RankIs(t, t[i], i);
  }

  /** With R == T every target is already at its rank: no move is made. */
  lemma {:induction false} SelfDistanceFrom(n: nat, t: seq<set<nat>>, from: nat)
    requires RankedTree(n, t)
    ensures Run(t, t, from) == Ok(0)
    decreases |t| - from
  {
    if from + 1 < |t| {
      RankOfOwnRow(n, t, from);
      SelfDistanceFrom(n, t, from + 1);
    }
  }

  /** The distance of a ranked tree from itself is 0. */
  lemma SelfDistance(n: nat, t: seq<set<nat>>)
    requires RankedTree(n, t)
    ensures Run(t, t, 0) == Ok(0)
  {
    SelfDistanceFrom(n, t, 0);
  }

  // ---------------------------------------------------------------------
  // rnni_findpath
  // ---------------------------------------------------------------------

  /**
   * `rnni_findpath`: copy T into T1, then for k = 0 .. len(R)-2 find the rank
   * r of R[k] in T1 and apply moves until it reaches k, counting them. T and
   * R are only read.
   */
  method RnniFindpath(T: array<set<nat>>, R: array<set<nat>>) returns (d: Result<nat>)
    ensures d == Run(T[..], R[..], 0)
  {
    var T1 := CopyRows(T);
    ghost var R0 := R[..];
    ghost var total := Run(T1[..], R0, 0);
    var dist: nat := 0;
    var k: nat := 0;
    while k + 1 < R.Length
      invariant total == AddMoves(dist, Run(T1[..], R0, k))
      decreases R.Length - k
    {
      var Ck := R[k];
      var moves, _ := Round(T1, Ck, k, R0, total, dist);
      if moves.Fail? {
        return Fail(moves.error);
      }
      dist := dist + moves.value;
      k := k + 1;
    }
    return Ok(dist);
  }

  /** `T.copy()`. */
  method CopyRows(T: array<set<nat>>) returns (T1: array<set<nat>>)
    ensures fresh(T1) && T1[..] == T[..]
  {
    T1 := new set<nat>[T.Length];
    var k := 0;
    while k < T.Length
      invariant 0 <= k <= T.Length
      invariant T1[..k] == T[..k]
    {
      T1[k] := T[k];
      k := k + 1;
    }
    assert T1[..] == T1[..T.Length];
  }

  /** One round of the `for k` loop: the moves of the inner loop, then the later targets. */
  lemma RoundStep(t0: seq<set<nat>>, t1: seq<set<nat>>, R: seq<set<nat>>, k: nat, rank: Result<nat>,
                  m: Result<nat>, total: Result<nat>, dist: nat)
    requires k + 1 < |R| && rank == Rank(t0, R[k])
    requires total == AddMoves(dist, Run(t0, R, k))
    requires rank.Fail? ==> m == Fail(NoAncestor)
    requires rank.Ok? ==> (var goal := Drag(t0, rank.value, R[k], k);
      && (m.Ok? <==> goal.Ok?)
      && (m.Ok? ==> t1 == goal.value && m.value == if rank.value > k then rank.value - k else 0)
      && (m.Fail? ==> m.error == NoChild))
    ensures m.Fail? ==> total == Fail(m.error)
    ensures m.Ok? ==> total == AddMoves(dist + m.value, Run(t1, R, k + 1))
  {
    if m.Ok? {
      AddMovesTwice(dist, m.value, Run(t1, R, k + 1));
    }
  }

  /** One round of the `for k` loop: the moves of the inner loop, or the error raised. */
  method Round(T1: array<set<nat>>, c: set<nat>, k: nat, ghost R0: seq<set<nat>>,
               ghost total: Result<nat>, ghost dist: nat)
    returns (moves: Result<nat>, ghost rank: Result<nat>)
    requires k + 1 < |R0| && c == R0[k]
    requires total == AddMoves(dist, Run(T1[..], R0, k))
    modifies T1
    ensures rank == Rank(old(T1[..]), c)
    ensures moves.Fail? ==> total == Fail(moves.error)
    ensures moves.Fail? && rank.Fail? ==> T1[..] == old(T1[..])
    ensures moves.Ok? ==> rank.Ok? && Drag(old(T1[..]), rank.value, c, k) == Ok(T1[..])
    ensures moves.Ok? ==> total == AddMoves(dist + moves.value, Run(T1[..], R0, k + 1))
  {
    ghost var t0 := T1[..];
    var r := Rank(T1[..], c);
    rank := r;
    moves := Fail(NoAncestor);
    if r.Ok? {
      moves := DragAt(T1, r.value, c, k);
    }
    RoundStep(t0, T1[..], R0, k, r, moves, total, dist);
  }

  /**
   * The `while r > k` loop: moves at ranks r0, r0-1, ..., k+1, each lowering
   * r by one and adding one to the count, or the ValueError of a child scan.
   */
  method DragAt(T1: array<set<nat>>, r0: nat, c: set<nat>, k: nat) returns (moves: Result<nat>)
    requires r0 < T1.Length
    modifies T1
    ensures var goal := Drag(old(T1[..]), r0, c, k);
      moves.Ok? <==> goal.Ok?
    ensures moves.Ok? ==> T1[..] == Drag(old(T1[..]), r0, c, k).value
    ensures moves.Ok? ==> moves.value == if r0 > k then r0 - k else 0
    ensures moves.Fail? ==> moves.error == NoChild
  {
    ghost var goal := Drag(T1[..], r0, c, k);
    var r: nat := r0;
    var count: nat := 0;
    while r > k
      invariant r <= r0 && (r0 > k ==> k <= r) && (r0 <= k ==> r == r0)
      invariant r < T1.Length && goal == Drag(T1[..], r, c, k)
      invariant count == r0 - r
    {
      ghost var t0 := T1[..];
      var ok := MoveAt(T1, r, c);
      if !ok {
        DragFails(t0, r, c, k, goal);
        return Fail(NoChild);
      }
      DragStep(t0, T1[..], r, c, k, goal);
      count := count + 1;
      r := r - 1;
    }
    return Ok(count);
  }

  lemma DragStep(t0: seq<set<nat>>, t1: seq<set<nat>>, r: nat, c: set<nat>, k: nat,
                 goal: Result<seq<set<nat>>>)
    requires k < r < |t0| && Move(t0, r, c) == Ok(t1) && goal == Drag(t0, r, c, k)
    ensures goal == Drag(t1, r - 1, c, k)
  {
  }

  lemma DragFails(t0: seq<set<nat>>, r: nat, c: set<nat>, k: nat, goal: Result<seq<set<nat>>>)
    requires k < r < |t0| && Move(t0, r, c).Fail? && goal == Drag(t0, r, c, k)
    ensures goal.Fail?
  {
  }

  /**
   * The body of the `while r > k` loop at rank r: an NNI of row r-1 or a swap
   * of rows r and r-1, with the child scan written as the Python `for` loop.
   * On a ValueError nothing has been written.
   */
  method MoveAt(T1: array<set<nat>>, r: nat, c: set<nat>) returns (ok: bool)
    requires 0 < r < T1.Length
    modifies T1
    ensures ok <==> Move(old(T1[..]), r, c).Ok?
    ensures ok ==> T1[..] == Move(old(T1[..]), r, c).value
    ensures !ok ==> T1[..] == old(T1[..])
  {
    var v := T1[r];
    var u := T1[r - 1];
    if BitwiseSubset(u, v) {
      var w := v - u;
      var child := ChildAt(T1, r);
      if child.Fail? {
        return false;
      }
      var x := child.value;
      var y := u - x;
      if BitwiseSubset(c, x + w) {
        T1[r - 1] := x + w;
      } else {
        T1[r - 1] := y + w;
      }
    } else {
      T1[r], T1[r - 1] := u, v;
    }
    return true;
  }

  /**
   * The search for a child x of u = T1[r-1]: `np.nonzero` when u holds two
   * leaves, otherwise the `for x in reversed(T1[: r - 1])` loop.
   */
  method ChildAt(T1: array<set<nat>>, r: nat) returns (x: Result<set<nat>>)
    requires 0 < r < T1.Length
    ensures x == ChildOf(T1[..], r)
  {
    var u := T1[r - 1];
    if |u| == 2 {
      HasLowest(u);
      var m :| m in u && forall y :: y in u ==> m <= y;
      assert m == Lowest(u);
      return Ok({m});
    }
    var j: int := r - 2;
    while j >= 0
      invariant -1 <= j <= r - 2
      invariant ChildScan(T1[..], j, u) == ChildScan(T1[..], r - 2, u)
      decreases j + 1
    {
      if BitwiseSubset(T1[j], u) {
        return Ok(T1[j]);
      }
      j := j - 1;
    }
    return Fail(NoChild);
  }
}

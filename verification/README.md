# tree64 in Dafny

tree64 computes the RNNI distance between two ranked binary trees on n
leaves (Collienne and Gavryushkin, 2020), and generates random ranked trees.
A tree is stored as n-1 descendant masks indexed by rank. Bit (or position)
k of a mask is set when leaf k lies under that node, and the last mask (the
root) holds every leaf. The repository implements the distance twice:

- `tree64.c`: 64-bit masks, the `rank` lookup, `t64_rnni_distance` and the
  generator `t64_random`;
- `tskit-rnni.py`: 0/1 numpy rows, the `bitwise_subset` and `rank` helpers,
  and `rnni_findpath`.

The model keeps the form of each source:

| file | module | content |
|---|---|---|
| `outcomes.dfy` | `Outcomes` | The failure results shared by both models. |
| `bits.dfy` | `Bits` | The C mask operations as `bv64` functions (`&`, `\|`, `+`, `-`, `1ull << i`, `u & -u`, popcount). Lemmas show when `+` and `-` coincide with set union and set difference. |
| `tree64.dfy` | `Tree64` | The ranked-tree predicate and `rank`. `t64_rnni_distance` is an imperative method on an array copy, proved equal to the recursive specification `Run`/`Drag`/`Move`. |
| `random_tree.dfy` | `RandomTree` | `t64_random` as an imperative method on two arrays, proved to write `Generate(n, draws)`. Lemmas prove that the result is always a ranked tree. |
| `tskit_rnni.dfy` | `TskitRnni` | The Python helpers as functions. `rnni_findpath` is an imperative method on an array copy, proved equal to its own `Run`/`Drag`/`Move`. |

The two distance implementations differ, and each is modelled as written:

- The C loop runs top-down (i from n-2 to 0); the Python loop runs bottom-up
  (k from 0 to len(R)-2).
- The C code takes the NNI branch when `v & u != 0`; the Python code takes it
  when u is inside v.
- The NNI choice differs. C keeps x+w when x+w lies inside R[i]. Python keeps
  x+w when Ck lies inside x+w.
- The C child scan starts at rank r-1, which is u itself, so its first probe
  always succeeds with x = u (`Tree64.ChildScanFindsU`). The Python scan
  starts at row r-2.

Nothing here claims that the two versions agree.

Python rows are modelled as sets of leaf positions. The uint8 `-` becomes
set difference and `+` becomes set union. This is exact because every
subtraction removes a nested row and every sum joins disjoint rows
(`TskitRnni.NniOperands`). C masks stay `bv64`, and the C `+` and `-` are
modelled literally, with 64-bit wrap-around (`Bits.Add`, `Bits.Sub`).
`Tree64.NniRowSets` shows that on nested masks they are set union and set
difference.

The fatal exits `errx` (C) and `ValueError` (Python) become a `Fail` result
that carries the kind of failure. Neither distance routine has a `modifies`
clause on its inputs, so T and R are only read. All moves go to the fresh
copy `T1`.

## Model

| member | source | states |
|---|---|---|
| Bits.LowestBit | tree64.c:67-70 | `u & -u` lies inside u and is nonzero when u is. |
| Bits.LowestBitSingle | tree64.c:67-70 | For nonzero u, `u & -u` is a single leaf (it shares nothing with the bits below it), and u holds no leaf below it: it is u's lowest leaf. |
| Bits.PopcountZero | tree64.c:25 | `popcount64(a)` is 0 exactly when no leaf lies under a. |
| Bits.AddDisjoint | tree64.c:87-90 | The C sum of two masks with no common leaf is their union. |
| Bits.SubNested | tree64.c:85-86 | The C difference v - u of a mask u inside v is the set difference. |
| Bits.FullFromLeaves | tree64.c:125-128 | A mask within n bits that holds every leaf below n is the full n-bit mask. |
| Tree64.RankFrom | tree64.c:31-34 | The scan from rank `from` returns the least rank whose mask contains x, or fails exactly when no rank from `from` on contains x. |
| Tree64.Rank | tree64.c:27-37 | `rank` returns the least i <= n-2 with `(v[i] & x) == x`. It fails (`errx`) exactly when there is none. |
| Tree64.RankFindsEveryCluster | tree64.c:27-37 | If the top row is the full mask, every x within the n bits is found. |
| Tree64.ChildScan | tree64.c:75-83 | The child scan returns a row below or at rank j that lies inside u; on failure no row in that range lies inside u. |
| Tree64.ChildScanFindsU | tree64.c:75-79 | The scan's first probe is u itself, so it returns u and the failure branch is unreachable. |
| Tree64.ChildOf | tree64.c:67-84 | The chosen x lies inside u. When u holds exactly two leaves (a cherry), x is `u & -u`, its lowest leaf; otherwise x is u. |
| Tree64.NniRow | tree64.c:85-91 | Whenever x + w lies inside c, so does the new row: the NNI keeps c's leaves together when it can. |
| Tree64.NniRowSets | tree64.c:85-91 | For x inside u inside v, the C arithmetic is set algebra: the new row is x joined with v minus u when that lies inside c, else (u minus x) joined with v minus u. |
| Tree64.NniRowInside | tree64.c:85-91 | The rewritten row lies inside v. |
| Tree64.NniRowWholeChild | tree64.c:75-91 | With x = u, the new row is v itself when v lies inside c, and v minus u otherwise. |
| Tree64.Move | tree64.c:60-96 | One move changes only rows r and r-1. |
| Tree64.MoveSwaps | tree64.c:92-95 | On disjoint rows, rows r and r-1 are exchanged and the multiset of masks is kept. |
| Tree64.MoveNested | tree64.c:63-91 | When u lies inside v, row r keeps v and the new row r-1 lies inside v. |
| Tree64.MoveNniCherry | tree64.c:67-91 | When u is a cherry, x is `u & -u` (its lowest leaf, by `Bits.LowestBitSingle`), and row r-1 becomes x joined with w = v minus u when that lies inside c, else u minus x joined with w. |
| Tree64.MoveNniWhole | tree64.c:71-91 | When u is not a cherry, row r-1 becomes v (if v lies inside c) or v minus u. |
| Tree64.Drag | tree64.c:59-99 | The inner loop for rank i leaves every row below i and above r unchanged. |
| Tree64.Run | tree64.c:57-100 | The outer loop fails only when `rank` fails. |
| Tree64.RunBound | tree64.c:47 | The move count after rounds i..0 is at most (i+1)(n-1), so the uint64 counter `d` never wraps. |
| Tree64.RankOfOwnRow | tree64.c:27-37 | In a ranked tree, the first row containing row i is row i. |
| Tree64.SelfDistance | tree64.c:57-59 | The distance of a ranked tree from itself is 0. |
| Tree64.RankedNeverFails | tree64.c:57-100 | For two ranked trees on the same n leaves, the distance never takes the `errx` exit: every `rank` call succeeds. |
| Tree64.RunKeepsRoot | tree64.c:57-100 | While some row of T1 is the full mask, each remaining `rank(T1, R[i])` succeeds and the rounds end without failure. |
| Tree64.DragKeepsRoot | tree64.c:59-99 | The moves of one round keep the full mask in some row: a swap moves it down one rank, an NNI rewrites only the row below it. |
| Tree64.RnniDistance | tree64.c:43-105 | `t64_rnni_distance` returns exactly the count `Run` specifies, or the failure of `rank`. |
| Tree64.Round | tree64.c:58-99 | One round of the outer loop: if `rank` fails it reports that failure with T1 untouched; otherwise T1 becomes `Drag` from the rank of R[i] down to i, and the moves are added to the running count. |
| Tree64.CopyRows | tree64.c:55 | `memcpy` fills the fresh copy T1 with the first n-1 masks of T. |
| Tree64.DragAt | tree64.c:59-99 | The inner loop applies `Drag`, and it makes r0 - i moves (none when r0 <= i): one per step, with r lowered by one each time. |
| Tree64.MoveAt | tree64.c:60-96 | The loop body, with its literal child-scan loop, writes exactly `Move`. |
| RandomTree.Leaves | tree64.c:125-128 | The buffer starts with the n single-leaf masks. |
| RandomTree.JoinNode | tree64.c:135-139 | The new row is u[a] joined with its partner: b, or the former last entry when b == a. |
| RandomTree.JoinPool | tree64.c:135-141 | The compacted buffer has one entry fewer, and position b holds the new row. |
| RandomTree.JoinShape | tree64.c:135-141 | The two joined entries are distinct. Every other position of the compacted buffer holds a surviving old entry. |
| RandomTree.SourceInjective | tree64.c:137 | Distinct positions of the compacted buffer hold distinct old entries. |
| RandomTree.SourceOnto | tree64.c:137 | Every old entry other than the two joined ones survives. |
| RandomTree.Pool | tree64.c:130-142 | After i steps, n - i entries are live. |
| RandomTree.Rows | tree64.c:130-142 | After i steps, i rows have been written. |
| RandomTree.Generate | tree64.c:112-145 | The generated tree has n-1 rows. |
| RandomTree.LeavesInv | tree64.c:125-128 | The leaf buffer meets the buffer invariant: live entries are nonzero, pairwise disjoint and cover every leaf. |
| RandomTree.StepDisjoint | tree64.c:130-142 | A step keeps the live entries nonzero, within n bits and pairwise disjoint. |
| RandomTree.StepCovers | tree64.c:130-142 | A step keeps every leaf covered by some live entry. |
| RandomTree.StepClusters | tree64.c:130-142 | After a step, every live entry is a leaf or a written row. |
| RandomTree.StepLaminar | tree64.c:130-142 | After a step, every written row lies inside or is disjoint from every live entry. |
| RandomTree.StepRows | tree64.c:130-142 | The appended row keeps the rows distinct, nested-or-disjoint, and each the union of two earlier clusters. |
| RandomTree.StepChildren | tree64.c:135-141 | The new row is the disjoint union of two clusters available to it. |
| RandomTree.StepInv | tree64.c:130-142 | One step keeps the whole buffer invariant. |
| RandomTree.LastEntryIsRoot | tree64.c:130-142 | With one live entry left, it is the full mask and the rows form a ranked tree. |
| RandomTree.InvAt | tree64.c:130-142 | The buffer invariant holds before every step. |
| RandomTree.GenerateRanked | tree64.c:112-145 | Whatever the draws, `t64_random` writes a ranked tree over n leaves. |
| RandomTree.Random | tree64.c:112-145 | `t64_random` writes `Generate(n, draws)` into v[..n-1], leaves the rest of v alone, and the result is a ranked tree. |
| RandomTree.LeafBuffer | tree64.c:121-128 | The buffer holds exactly the n leaf masks. |
| RandomTree.StepAt | tree64.c:131-141 | Step i turns `Pool(i)` and `Rows(i)` into `Pool(i+1)` and `Rows(i+1)`. |
| RandomTree.JoinAt | tree64.c:135-141 | The four assignments write `JoinNode` into v[i] and leave `JoinPool` in u[..j]. |
| TskitRnni.BitwiseSubset | tskit-rnni.py:32-36 | `bitwise_subset(a, b)` holds iff every position of a is set in b. |
| TskitRnni.RankFrom | tskit-rnni.py:44-47 | The scan from row `from` returns the first row containing x. It fails exactly when no such row exists. |
| TskitRnni.Rank | tskit-rnni.py:39-48 | `rank` returns the first j with x inside T[j]. It raises ValueError exactly when no row contains x. |
| TskitRnni.RankIs | tskit-rnni.py:44-47 | The result is j exactly when row j contains x and no earlier row does. |
| TskitRnni.RankFindsEveryCluster | tskit-rnni.py:39-48 | If the last row holds every leaf, every set of leaves has a rank. |
| TskitRnni.Lowest | tskit-rnni.py:70-74 | `leaves[0]` is the least position of u. |
| TskitRnni.ChildScan | tskit-rnni.py:76-81 | The reversed scan returns the highest-indexed row at or below j that lies inside u. On ValueError, no such row exists. |
| TskitRnni.ChildOf | tskit-rnni.py:70-81 | x lies inside u. When u has two positions, x is the singleton of the lowest. Otherwise x is the highest row below r-1 that lies inside u, and it fails exactly when there is none. |
| TskitRnni.NniOperands | tskit-rnni.py:67-90 | Every uint8 difference is taken on nested rows and every sum on disjoint rows, so each entry stays 0 or 1. |
| TskitRnni.NniRow | tskit-rnni.py:82-90 | Whenever Ck lies inside x + w, it lies inside the new row; with x inside u inside v, the new row lies inside v. |
| TskitRnni.NniChoice | tskit-rnni.py:82-90 | The new row lies inside v. It is x + w, and contains Ck, when Ck lies inside x + w; otherwise it is y + w. |
| TskitRnni.Move | tskit-rnni.py:63-93 | One move changes only rows r and r-1. It fails only in the nested, non-cherry case. |
| TskitRnni.MoveSwaps | tskit-rnni.py:91-93 | When u is not inside v, rows r and r-1 are exchanged and the multiset of rows is kept. |
| TskitRnni.MoveNested | tskit-rnni.py:65-90 | When u is inside v, only row r-1 is rewritten, inside v, with the NNI choice. |
| TskitRnni.MoveLowersRank | tskit-rnni.py:94 | A swap, or an NNI taking the x + w option, lowers the rank of Ck from r to r-1. |
| TskitRnni.Drag | tskit-rnni.py:62-95 | The inner loop leaves rows outside k..r unchanged. It fails only with the child-scan ValueError. |
| TskitRnni.RunIgnoresRoot | tskit-rnni.py:59 | The loop processes k = 0..len(R)-2, so replacing R's root row never changes the result. |
| TskitRnni.RankOfOwnRow | tskit-rnni.py:39-48 | In a ranked tree, the first row containing row k is row k. |
| TskitRnni.SelfDistance | tskit-rnni.py:51-62 | `rnni_findpath(T, T)` is 0 for a ranked tree T. |
| TskitRnni.RnniFindpath | tskit-rnni.py:51-97 | `rnni_findpath` returns exactly the count `Run` specifies, or the ValueError raised. |
| TskitRnni.CopyRows | tskit-rnni.py:57 | `T.copy()` is a fresh array with T's rows. |
| TskitRnni.Round | tskit-rnni.py:59-95 | One round: its ghost `rank` is the rank of Ck in the old T1. If that fails, T1 is untouched and the ValueError is reported; if the round succeeds, T1 becomes `Drag` from that rank down to k, and the moves are added to the running count. |
| TskitRnni.DragAt | tskit-rnni.py:62-95 | The inner loop applies `Drag`, and it makes r0 - k moves: one per step, with r lowered by one each time. |
| TskitRnni.MoveAt | tskit-rnni.py:63-93 | The loop body writes exactly `Move`. On ValueError it has written nothing. |
| TskitRnni.ChildAt | tskit-rnni.py:70-81 | The cherry test and the reversed scan loop compute `ChildOf`. |

## Left out

- The PCG generator (`pcg32_boundedrand_r`, from `pcg_variants.h`, which is not part of this model) is replaced by a sequence of draws with a < j and b < j-1. No claim is made about the distribution of generated trees.
- `malloc` and `free` are left out, and so is the `err` exit when allocation fails. The `assert(n > 1 && n <= 64)` checks become preconditions.
- `t64_print` (tree64.c:147-160) and `main` (tree64.c:162-182) are left out. They produce printed output and a floating-point benchmark average.
- `node_encodings` (tskit-rnni.py:8-29) and the `__main__` block (tskit-rnni.py:100-114) are left out. They call into msprime and tskit. Rows are assumed to be 0/1 vectors, as those calls produce them.
- The numpy mechanics (the fancy-index swap, `np.nonzero`, `zeros_like`, views) appear only through their effect on rows.
- No metric claim is made: not symmetry, not the triangle inequality, not optimality. Nothing is claimed about agreement with the published RNNI distance or between the C and the Python versions.
- TskitRnni.MoveLowersRank: does not cover the y + w branch of the NNI. That Ck then lies in the new row depends on R being a ranked tree compatible with T1, which the model does not relate.
- Tree64.RnniDistance: the uint64 counter `d` is an unbounded `nat`. `Tree64.RunBound` shows that it stays far below 2^64.
- TskitRnni.Round: when a child scan raises ValueError partway through the inner loop, the rows already moved in T1 are not stated. The exception ends `rnni_findpath`, so that copy is never read again.

/**
 * Greedy association of `SORTTracker._match` (server/tracker.py): repeatedly
 * commit the largest remaining score of the detection-by-track matrix while it
 * reaches the threshold, then zero that detection's row and that track's column.
 *
 * The specification works on the ORIGINAL matrix together with the sets of rows
 * and columns already zeroed, which is exactly what the in-place matrix holds at
 * every step of the loop.
 */
module SortMatching {
  import opened Seqs

  /** One row per detection, one column per track. */
  type Matrix = seq<seq<real>>

  ghost predicate Rect(m: Matrix, cols: nat) {
    forall i :: 0 <= i < |m| ==> |m[i]| == cols
  }

  /** The entry (i, j) once rows `zr` and columns `zc` have been zeroed. */
  function Cell(m: Matrix, zr: set<nat>, zc: set<nat>, i: nat, j: nat): real
    requires i < |m| && j < |m[i]|
  {
    if i in zr || j in zc then 0.0 else m[i][j]
  }

  /** (r, c) comes strictly before (i, j) in row-major (flattened) order. */
  predicate Before(r: nat, c: nat, i: nat, j: nat) {
    r < i || (r == i && c < j)
  }

  /**
   * The column of the first maximum of row `i` among columns [0, n):
   * the maximum, and strictly larger than every column before it.
   */
  function RowFirstMax(m: Matrix, zr: set<nat>, zc: set<nat>, i: nat, n: nat): (j: nat)
    requires i < |m| && 0 < n <= |m[i]|
    ensures j < n
    ensures forall c :: 0 <= c < n ==> Cell(m, zr, zc, i, c) <= Cell(m, zr, zc, i, j)
    ensures forall c :: 0 <= c < j ==> Cell(m, zr, zc, i, c) < Cell(m, zr, zc, i, j)
  {
    if n == 1 then 0
    else
      var j := RowFirstMax(m, zr, zc, i, n - 1);
      if Cell(m, zr, zc, i, n - 1) > Cell(m, zr, zc, i, j) then n - 1 else j
  }

  /**
   * `np.unravel_index(np.argmax(...))` over rows [0, n): the first maximum in
   * row-major order. It is a maximum of the whole block, and every entry before
   * it is strictly smaller, so ties go to the earliest position.
   */
  function FirstMax(m: Matrix, zr: set<nat>, zc: set<nat>, cols: nat, n: nat): (p: (nat, nat))
    requires 0 < n <= |m| && 0 < cols && Rect(m, cols)
    ensures p.0 < n && p.1 < cols
    ensures forall r, c :: 0 <= r < n && 0 <= c < cols ==>
      Cell(m, zr, zc, r, c) <= Cell(m, zr, zc, p.0, p.1)
    ensures forall r, c :: 0 <= r < n && 0 <= c < cols && Before(r, c, p.0, p.1) ==>
      Cell(m, zr, zc, r, c) < Cell(m, zr, zc, p.0, p.1)
  {
    var j := RowFirstMax(m, zr, zc, n - 1, cols);
    if n == 1 then (0, j)
    else
      var p := FirstMax(m, zr, zc, cols, n - 1);
      if Cell(m, zr, zc, n - 1, j) > Cell(m, zr, zc, p.0, p.1) then (n - 1, j) else p
  }

  /** A position that is a maximum and beats everything before it is unique. */
  lemma FirstMaxUnique(m: Matrix, zr: set<nat>, zc: set<nat>, cols: nat, i: nat, j: nat)
    requires 0 < |m| && 0 < cols && Rect(m, cols)
    requires i < |m| && j < cols
    requires forall r, c :: 0 <= r < |m| && 0 <= c < cols ==> Cell(m, zr, zc, r, c) <= Cell(m, zr, zc, i, j)
    requires forall r, c :: 0 <= r < |m| && 0 <= c < cols && Before(r, c, i, j) ==>
      Cell(m, zr, zc, r, c) < Cell(m, zr, zc, i, j)
    ensures FirstMax(m, zr, zc, cols, |m|) == (i, j)
  {
    var p := FirstMax(m, zr, zc, cols, |m|);
    assert Cell(m, zr, zc, p.0, p.1) == Cell(m, zr, zc, i, j);
  }

  /** Rows that are not zeroed yet: the measure that shrinks with every commit. */
  function Free(rows: nat, zr: set<nat>): set<nat> {
    set i | 0 <= i < rows && i !in zr
  }

  /** Zeroing a free row leaves fewer free rows. */
  lemma FreeShrinks(rows: nat, zr: set<nat>, i: nat)
    requires i < rows && i !in zr
    ensures Free(rows, zr + {i}) < Free(rows, zr)
  {
    assert i in Free(rows, zr) - Free(rows, zr + {i});
  }

  /**
   * The pairs (detection row, track column) `_match` commits, in commit order,
   * starting from a matrix whose rows `zr` and columns `zc` are already zeroed.
   * An empty matrix (`iou_matrix.size == 0`) commits nothing.
   */
  function Greedy(m: Matrix, cols: nat, thr: real, zr: set<nat>, zc: set<nat>): (g: seq<(nat, nat)>)
    requires Rect(m, cols) && thr > 0.0
    ensures forall k :: 0 <= k < |g| ==> g[k].0 < |m| && g[k].1 < cols
    decreases Free(|m|, zr)
  {
    if |m| == 0 || cols == 0 then []
    else
      var p := FirstMax(m, zr, zc, cols, |m|);
      if Cell(m, zr, zc, p.0, p.1) < thr then []
      else
        assert p.0 in Free(|m|, zr) - Free(|m|, zr + {p.0});
        [p] + Greedy(m, cols, thr, zr + {p.0}, zc + {p.1})
  }

  function Rows(ps: seq<(nat, nat)>): set<nat> {
    set k | 0 <= k < |ps| :: ps[k].0
  }

  function Cols(ps: seq<(nat, nat)>): set<nat> {
    set k | 0 <= k < |ps| :: ps[k].1
  }

  /**
   * Every committed pair lies in the matrix, on a row and a column that were
   * still live, scores at least the threshold, and no detection row and no
   * track column is committed twice.
   */
  ghost predicate Live(g: seq<(nat, nat)>, zr: set<nat>, zc: set<nat>) {
    forall k :: 0 <= k < |g| ==> g[k].0 !in zr && g[k].1 !in zc
  }

  ghost predicate AtLeast(m: Matrix, g: seq<(nat, nat)>, thr: real) {
    forall k :: 0 <= k < |g| ==> g[k].0 < |m| && g[k].1 < |m[g[k].0]| && m[g[k].0][g[k].1] >= thr
  }

  ghost predicate OneToOne(g: seq<(nat, nat)>) {
    forall k, l :: 0 <= k < l < |g| ==> g[k].0 != g[l].0 && g[k].1 != g[l].1
  }

  lemma {:induction false} GreedyAtMostOnce(m: Matrix, cols: nat, thr: real, zr: set<nat>, zc: set<nat>)
    requires Rect(m, cols) && thr > 0.0
    ensures Live(Greedy(m, cols, thr, zr, zc), zr, zc)
    ensures AtLeast(m, Greedy(m, cols, thr, zr, zc), thr)
    ensures OneToOne(Greedy(m, cols, thr, zr, zc))
    decreases Free(|m|, zr)
  {
    if |m| > 0 && cols > 0 {
      var p := FirstMax(m, zr, zc, cols, |m|);
      if Cell(m, zr, zc, p.0, p.1) >= thr {
        assert p.0 in Free(|m|, zr) - Free(|m|, zr + {p.0});
        GreedyAtMostOnce(m, cols, thr, zr + {p.0}, zc + {p.1});
        var rest := Greedy(m, cols, thr, zr + {p.0}, zc + {p.1});
        var g := Greedy(m, cols, thr, zr, zc);
        assert g == [p] + rest;
        forall k | 0 < k < |g| ensures g[k].0 != p.0 && g[k].1 != p.1 && g[k].0 !in zr && g[k].1 !in zc {
          assert g[k] == rest[k - 1];
        }
      }
    }
  }

  /**
   * The greedy result is maximal: once it stops, every detection row and track
   * column left unmatched meet with a score below the threshold.
   */
  lemma {:induction false} GreedyMaximal(m: Matrix, cols: nat, thr: real, zr: set<nat>, zc: set<nat>, r: nat, c: nat)
    requires Rect(m, cols) && thr > 0.0
    requires r < |m| && c < cols
    requires var g := Greedy(m, cols, thr, zr, zc);
      r !in zr && r !in Rows(g) && c !in zc && c !in Cols(g)
    ensures m[r][c] < thr
    decreases Free(|m|, zr)
  {
    var p := FirstMax(m, zr, zc, cols, |m|);
    var g := Greedy(m, cols, thr, zr, zc);
    if Cell(m, zr, zc, p.0, p.1) >= thr {
      assert p.0 in Free(|m|, zr) - Free(|m|, zr + {p.0});
      var rest := Greedy(m, cols, thr, zr + {p.0}, zc + {p.1});
      assert g == [p] + rest;
      assert p.0 in Rows(g) && p.1 in Cols(g) by { assert g[0] == p; }
      assert Rows(rest) <= Rows(g) by {
        forall k | 0 <= k < |rest| ensures rest[k].0 in Rows(g) { assert g[k + 1] == rest[k]; }
      }
      assert Cols(rest) <= Cols(g) by {
        forall k | 0 <= k < |rest| ensures rest[k].1 in Cols(g) { assert g[k + 1] == rest[k]; }
      }
      GreedyMaximal(m, cols, thr, zr + {p.0}, zc + {p.1}, r, c);
    } else {
      assert Cell(m, zr, zc, r, c) <= Cell(m, zr, zc, p.0, p.1);
    }
  }

  ghost predicate InBounds(m: Matrix, g: seq<(nat, nat)>) {
    forall k :: 0 <= k < |g| ==> g[k].0 < |m| && g[k].1 < |m[g[k].0]|
  }

  ghost predicate Descending(m: Matrix, g: seq<(nat, nat)>)
    requires InBounds(m, g)
  {
    forall k, l :: 0 <= k < l < |g| ==> m[g[l].0][g[l].1] <= m[g[k].0][g[k].1]
  }

  /** Each commit takes the largest score still available, so commit scores never increase. */
  lemma {:induction false} GreedyNonIncreasing(m: Matrix, cols: nat, thr: real, zr: set<nat>, zc: set<nat>)
    requires Rect(m, cols) && thr > 0.0
    ensures InBounds(m, Greedy(m, cols, thr, zr, zc))
    ensures Descending(m, Greedy(m, cols, thr, zr, zc))
    decreases Free(|m|, zr)
  {
    if |m| > 0 && cols > 0 {
      var p := FirstMax(m, zr, zc, cols, |m|);
      if Cell(m, zr, zc, p.0, p.1) >= thr {
        assert p.0 in Free(|m|, zr) - Free(|m|, zr + {p.0});
        var rest := Greedy(m, cols, thr, zr + {p.0}, zc + {p.1});
        GreedyNonIncreasing(m, cols, thr, zr + {p.0}, zc + {p.1});
        GreedyAtMostOnce(m, cols, thr, zr + {p.0}, zc + {p.1});
        var g := Greedy(m, cols, thr, zr, zc);
        assert g == [p] + rest;
        assert m[p.0][p.1] == Cell(m, zr, zc, p.0, p.1);
        forall k, l | 0 <= k < l < |g| ensures m[g[l].0][g[l].1] <= m[g[k].0][g[k].1] {
          var q := rest[l - 1];
          assert g[l] == q;
          if k == 0 {
            assert q.0 !in zr + {p.0} && q.1 !in zc + {p.1};
            assert m[q.0][q.1] == Cell(m, zr, zc, q.0, q.1);
          } else {
            assert g[k] == rest[k - 1];
          }
        }
      }
    }
  }

  /**
   * As written, `_match` does not stop under a threshold of zero or below: once
   * every detection row is zeroed, the maximum 0 still reaches the threshold,
   * so the round commits (0, 0) again and leaves the zeroed rows and columns
   * as they were, and the next round is the same.
   */
  lemma ZeroThresholdRepeats(m: Matrix, cols: nat, thr: real, zr: set<nat>, zc: set<nat>)
    requires Rect(m, cols) && 0 < |m| && 0 < cols && thr <= 0.0
    requires forall i :: 0 <= i < |m| ==> i in zr
    requires 0 in zc
    ensures var p := FirstMax(m, zr, zc, cols, |m|);
      p == (0, 0) && Cell(m, zr, zc, p.0, p.1) >= thr && zr + {p.0} == zr && zc + {p.1} == zc
  {
    var p := FirstMax(m, zr, zc, cols, |m|);
    assert Cell(m, zr, zc, 0, 0) == 0.0 == Cell(m, zr, zc, p.0, p.1);
  }

  /** The matrix as a value. */
  ghost function Snapshot(a: array2<real>): (m: Matrix)
    reads a
    ensures |m| == a.Length0 && Rect(m, a.Length1)
    ensures forall i, j :: 0 <= i < a.Length0 && 0 <= j < a.Length1 ==> m[i][j] == a[i, j]
  {
    seq(a.Length0, i requires 0 <= i < a.Length0 reads a =>
      seq(a.Length1, j requires 0 <= j < a.Length1 reads a => a[i, j]))
  }

  lemma RowsColsAppend(ps: seq<(nat, nat)>, p: (nat, nat))
    ensures Rows(ps + [p]) == Rows(ps) + {p.0} && Cols(ps + [p]) == Cols(ps) + {p.1}
  {
    assert (ps + [p])[|ps|] == p;
    assert forall k :: 0 <= k < |ps| ==> (ps + [p])[k] == ps[k];
  }

  /**
   * One round of the greedy loop: the first maximum of what is left either
   * falls below the threshold, and nothing more is committed, or it is the
   * next commit.
   */
  lemma GreedyStep(m: Matrix, cols: nat, thr: real, zr: set<nat>, zc: set<nat>, i: nat, j: nat)
    requires Rect(m, cols) && thr > 0.0
    requires i < |m| && j < cols
    requires forall r, c :: 0 <= r < |m| && 0 <= c < cols ==> Cell(m, zr, zc, r, c) <= Cell(m, zr, zc, i, j)
    requires forall r, c :: 0 <= r < |m| && 0 <= c < cols && Before(r, c, i, j) ==>
      Cell(m, zr, zc, r, c) < Cell(m, zr, zc, i, j)
    ensures Cell(m, zr, zc, i, j) < thr ==> Greedy(m, cols, thr, zr, zc) == []
    ensures Cell(m, zr, zc, i, j) >= thr ==>
      i !in zr && j !in zc &&
      Greedy(m, cols, thr, zr, zc) == [(i, j)] + Greedy(m, cols, thr, zr + {i}, zc + {j})
  {
    FirstMaxUnique(m, zr, zc, cols, i, j);
  }

  /**
   * `np.argmax` over the flattened matrix, unravelled: a maximal entry, and the
   * first one in row-major order.
   */
  method ArgMax(a: array2<real>) returns (i: nat, j: nat)
    requires a.Length0 > 0 && a.Length1 > 0
    ensures i < a.Length0 && j < a.Length1
    ensures forall r, c :: 0 <= r < a.Length0 && 0 <= c < a.Length1 ==> a[r, c] <= a[i, j]
    ensures forall r, c :: 0 <= r < a.Length0 && 0 <= c < a.Length1 && Before(r, c, i, j) ==> a[r, c] < a[i, j]
  {
    i, j := 0, 0;
    var r := 0;
    while r < a.Length0
      invariant 0 <= r <= a.Length0
      invariant i < a.Length0 && j < a.Length1
      invariant forall r', c :: 0 <= r' < r && 0 <= c < a.Length1 ==> a[r', c] <= a[i, j]
      invariant forall r', c :: 0 <= r' < r && 0 <= c < a.Length1 && Before(r', c, i, j) ==> a[r', c] < a[i, j]
      invariant r == 0 ==> i == 0 && j == 0
      invariant r > 0 ==> i < r
    {
      var c := 0;
      while c < a.Length1
        invariant 0 <= c <= a.Length1
        invariant i < a.Length0 && j < a.Length1
        invariant forall r', c' :: 0 <= r' < a.Length0 && 0 <= c' < a.Length1 && Before(r', c', r, c) ==> a[r', c'] <= a[i, j]
        invariant forall r', c' :: 0 <= r' < a.Length0 && 0 <= c' < a.Length1 && Before(r', c', r, c) && Before(r', c', i, j) ==>
          a[r', c'] < a[i, j]
        invariant (r == 0 && c == 0) ==> i == 0 && j == 0
        invariant (r > 0 || c > 0) ==> Before(i, j, r, c)
      {
        if a[r, c] > a[i, j] {
          i, j := r, c;
        }
        c := c + 1;
      }
      r := r + 1;
    }
  }

  /** The array holds the original matrix with rows `zr` and columns `zc` zeroed. */
  ghost predicate Mirrors(a: array2<real>, m: Matrix, zr: set<nat>, zc: set<nat>)
    reads a
  {
    |m| == a.Length0 && Rect(m, a.Length1) &&
    forall r, c :: 0 <= r < a.Length0 && 0 <= c < a.Length1 ==> a[r, c] == Cell(m, zr, zc, r, c)
  }

  /**
   * `iou_matrix[i, :] = 0` followed by `iou_matrix[:, j] = 0`: the array now
   * mirrors the original matrix with row `i` and column `j` zeroed as well.
   */
  method ZeroCross(a: array2<real>, i: nat, j: nat, ghost m: Matrix, ghost zr: set<nat>, ghost zc: set<nat>)
    requires i < a.Length0 && j < a.Length1
    requires Mirrors(a, m, zr, zc)
    modifies a
    ensures forall r, c :: 0 <= r < a.Length0 && 0 <= c < a.Length1 ==>
      a[r, c] == if r == i || c == j then 0.0 else old(a[r, c])
    ensures Mirrors(a, m, zr + {i}, zc + {j})
  {
    forall c | 0 <= c < a.Length1 {
      a[i, c] := 0.0;
    }
    forall r | 0 <= r < a.Length0 {
      a[r, j] := 0.0;
    }
  }

  /**
   * The progress of `_match` after committing `done`: the zeroed rows and
   * columns, the matched lists read off `done`, and the commits `rest` still
   * to come before the whole matching `full` is done.
   */
  ghost predicate Progress(trackIds: seq<int>, full: seq<(nat, nat)>, rest: seq<(nat, nat)>, zr: set<nat>, zc: set<nat>,
                           done: seq<(nat, nat)>, matchedDet: seq<nat>, matchedTrk: seq<int>)
  {
    full == done + rest &&
    zr == Rows(done) && zc == Cols(done) &&
    |matchedDet| == |done| && |matchedTrk| == |done| &&
    (forall k :: 0 <= k < |done| ==> done[k].1 < |trackIds|) &&
    (forall k :: 0 <= k < |done| ==> matchedDet[k] == done[k].0 && matchedTrk[k] == trackIds[done[k].1])
  }

  /** The leftover lists: what is not matched yet, in the original order. */
  ghost predicate Leftovers(numDet: nat, trackIds: seq<int>, matchedDet: seq<nat>, matchedTrk: seq<int>,
                            unmatchedDet: seq<nat>, unmatchedTrk: seq<int>)
  {
    unmatchedDet == Without(Range(numDet), Elems(matchedDet)) &&
    unmatchedTrk == Without(trackIds, Elems(matchedTrk))
  }

  lemma MatchStart(trackIds: seq<int>, full: seq<(nat, nat)>, numDet: nat)
    ensures Progress(trackIds, full, full, {}, {}, [], [], [])
    ensures Leftovers(numDet, trackIds, [], [], Range(numDet), trackIds)
  {
    WithoutNothing(Range(numDet));
    WithoutNothing(trackIds);
    assert Elems<nat>([]) == {} && Elems<int>([]) == {};
    assert Rows([]) == {} && Cols([]) == {};
  }

  /** Committing the first maximum (i, j) when it reaches the threshold. */
  lemma ProgressCommit(trackIds: seq<int>, full: seq<(nat, nat)>, rest: seq<(nat, nat)>, rest': seq<(nat, nat)>,
                       zr: set<nat>, zc: set<nat>, done: seq<(nat, nat)>, matchedDet: seq<nat>, matchedTrk: seq<int>,
                       i: nat, j: nat)
    requires Progress(trackIds, full, rest, zr, zc, done, matchedDet, matchedTrk)
    requires j < |trackIds| && rest == [(i, j)] + rest'
    ensures Progress(trackIds, full, rest', zr + {i}, zc + {j}, done + [(i, j)], matchedDet + [i], matchedTrk + [trackIds[j]])
  {
    RowsColsAppend(done, (i, j));
    assert done + ([(i, j)] + rest') == (done + [(i, j)]) + rest';
  }

  /** Discarding a committed detection and track from the leftover lists. */
  lemma LeftoversCommit(numDet: nat, trackIds: seq<int>, matchedDet: seq<nat>, matchedTrk: seq<int>,
                        unmatchedDet: seq<nat>, unmatchedTrk: seq<int>, i: nat, t: int)
    requires Distinct(trackIds)
    requires Leftovers(numDet, trackIds, matchedDet, matchedTrk, unmatchedDet, unmatchedTrk)
    ensures Leftovers(numDet, trackIds, matchedDet + [i], matchedTrk + [t], Discard(unmatchedDet, i), Discard(unmatchedTrk, t))
  {
    assert Distinct(Range(numDet));
    DiscardWithout(Range(numDet), Elems(matchedDet), i);
    ElemsAppend(matchedDet, i);
    DiscardWithout(trackIds, Elems(matchedTrk), t);
    ElemsAppend(matchedTrk, t);
  }

  /** Once the maximum falls below the threshold, everything `_match` commits is in `done`. */
  lemma MatchStop(trackIds: seq<int>, full: seq<(nat, nat)>, zr: set<nat>, zc: set<nat>,
                  done: seq<(nat, nat)>, matchedDet: seq<nat>, matchedTrk: seq<int>)
    requires Progress(trackIds, full, [], zr, zc, done, matchedDet, matchedTrk)
    ensures |matchedDet| == |full| && |matchedTrk| == |full| &&
      (forall k :: 0 <= k < |full| ==> matchedDet[k] == full[k].0 && matchedTrk[k] == trackIds[full[k].1])
  {
    assert done + [] == done;
  }

  /**
   * `np.max` and the first `np.argmax` of the matrix: whether and where the
   * greedy matching of the cells not yet zeroed commits next.
   */
  method MaxCell(a: array2<real>, ghost m: Matrix, ghost zr: set<nat>, ghost zc: set<nat>, thr: real)
    returns (i: nat, j: nat, maxScore: real)
    requires Mirrors(a, m, zr, zc) && thr > 0.0 && a.Length0 > 0 && a.Length1 > 0
    ensures i < a.Length0 && j < a.Length1 && maxScore == a[i, j]
    ensures maxScore < thr ==> Greedy(m, a.Length1, thr, zr, zc) == []
    ensures maxScore >= thr ==>
      (i !in zr && j !in zc && Greedy(m, a.Length1, thr, zr, zc) == [(i, j)] + Greedy(m, a.Length1, thr, zr + {i}, zc + {j}))
  {
    i, j := ArgMax(a);
    GreedyStep(m, a.Length1, thr, zr, zc, i, j);
    maxScore := a[i, j];
  }

  /**
   * One commit of `_match`: record detection `i` and the id of track `j`,
   * drop them from the leftover lists, and zero row `i` and column `j`.
   */
  method Commit(a: array2<real>, trackIds: seq<int>, i: nat, j: nat, ghost m: Matrix, ghost zr: set<nat>, ghost zc: set<nat>,
                matchedDet: seq<nat>, matchedTrk: seq<int>, unmatchedDet: seq<nat>, unmatchedTrk: seq<int>)
    returns (matchedDet': seq<nat>, matchedTrk': seq<int>, unmatchedDet': seq<nat>, unmatchedTrk': seq<int>)
    requires Mirrors(a, m, zr, zc) && Distinct(trackIds)
    requires i < a.Length0 && j < a.Length1 == |trackIds|
    requires Leftovers(a.Length0, trackIds, matchedDet, matchedTrk, unmatchedDet, unmatchedTrk)
    modifies a
    ensures matchedDet' == matchedDet + [i] && matchedTrk' == matchedTrk + [trackIds[j]]
    ensures Leftovers(a.Length0, trackIds, matchedDet', matchedTrk', unmatchedDet', unmatchedTrk')
    ensures Mirrors(a, m, zr + {i}, zc + {j})
  {
    var trkId := trackIds[j];
    LeftoversCommit(a.Length0, trackIds, matchedDet, matchedTrk, unmatchedDet, unmatchedTrk, i, trkId);
    matchedDet' := matchedDet + [i];
    matchedTrk' := matchedTrk + [trkId];
    unmatchedDet' := Discard(unmatchedDet, i);
    unmatchedTrk' := Discard(unmatchedTrk, trkId);
    ZeroCross(a, i, j, m, zr, zc);
  }

  /**
   * `SORTTracker._match`: the committed detection indices and track ids, in
   * commit order, and the detections and tracks left over, in their original
   * order. The matrix is zeroed in place along the committed rows and columns.
   */
  method Match(a: array2<real>, trackIds: seq<int>, numDet: nat, thr: real)
    returns (matchedDet: seq<nat>, matchedTrk: seq<int>, unmatchedDet: seq<nat>, unmatchedTrk: seq<int>)
    requires thr > 0.0 && Distinct(trackIds)
    requires a.Length0 == numDet && a.Length1 == |trackIds|
    modifies a
    ensures var g := Greedy(old(Snapshot(a)), |trackIds|, thr, {}, {});
      |matchedDet| == |g| && |matchedTrk| == |g| &&
      (forall k :: 0 <= k < |g| ==> matchedDet[k] == g[k].0 && matchedTrk[k] == trackIds[g[k].1])
    ensures unmatchedDet == Without(Range(numDet), Elems(matchedDet))
    ensures unmatchedTrk == Without(trackIds, Elems(matchedTrk))
  {
    ghost var m := Snapshot(a);
    ghost var full := Greedy(m, |trackIds|, thr, {}, {});
    MatchStart(trackIds, full, numDet);
    matchedDet, matchedTrk := [], [];
    unmatchedDet, unmatchedTrk := Range(numDet), trackIds;
    if numDet == 0 || |trackIds| == 0 {
      assert full == [];
      MatchStop(trackIds, full, {}, {}, [], matchedDet, matchedTrk);
      return;
    }
    matchedDet, matchedTrk, unmatchedDet, unmatchedTrk := MatchLoop(a, trackIds, thr, m, full);
  }

  /** The `while True` loop of `_match`, from a matrix with at least one cell. */
  method MatchLoop(a: array2<real>, trackIds: seq<int>, thr: real, ghost m: Matrix, ghost full: seq<(nat, nat)>)
    returns (matchedDet: seq<nat>, matchedTrk: seq<int>, unmatchedDet: seq<nat>, unmatchedTrk: seq<int>)
    requires thr > 0.0 && Distinct(trackIds) && a.Length0 > 0 && a.Length1 == |trackIds| > 0
    requires Mirrors(a, m, {}, {}) && full == Greedy(m, |trackIds|, thr, {}, {})
    modifies a
    ensures |matchedDet| == |full| && |matchedTrk| == |full| &&
      (forall k :: 0 <= k < |full| ==> matchedDet[k] == full[k].0 && matchedTrk[k] == trackIds[full[k].1])
    ensures Leftovers(a.Length0, trackIds, matchedDet, matchedTrk, unmatchedDet, unmatchedTrk)
  {
    ghost var zr: set<nat> := {};
    ghost var zc: set<nat> := {};
    ghost var done: seq<(nat, nat)> := [];
    MatchStart(trackIds, full, a.Length0);
    matchedDet, matchedTrk := [], [];
    unmatchedDet, unmatchedTrk := Range(a.Length0), trackIds;
    while true
      invariant Mirrors(a, m, zr, zc)
      invariant Progress(trackIds, full, Greedy(m, |trackIds|, thr, zr, zc), zr, zc, done, matchedDet, matchedTrk)
      invariant Leftovers(a.Length0, trackIds, matchedDet, matchedTrk, unmatchedDet, unmatchedTrk)
      decreases Free(a.Length0, zr)
    {
      var i, j, stop;
      i, j, stop, matchedDet, matchedTrk, unmatchedDet, unmatchedTrk :=
        Round(a, trackIds, thr, m, full, zr, zc, done, matchedDet, matchedTrk, unmatchedDet, unmatchedTrk);
      if stop {
        MatchStop(trackIds, full, zr, zc, done, matchedDet, matchedTrk);
        break;
      }
      FreeShrinks(a.Length0, zr, i);
      done := done + [(i, j)];
      zr, zc := zr + {i}, zc + {j};
    }
  }

  /**
   * One pass of the loop body of `_match`: stop when the maximum is below the
   * threshold, otherwise commit the first maximum (i, j).
   */
  method Round(a: array2<real>, trackIds: seq<int>, thr: real, ghost m: Matrix, ghost full: seq<(nat, nat)>,
               ghost zr: set<nat>, ghost zc: set<nat>, ghost done: seq<(nat, nat)>,
               matchedDet: seq<nat>, matchedTrk: seq<int>, unmatchedDet: seq<nat>, unmatchedTrk: seq<int>)
    returns (i: nat, j: nat, stop: bool,
             matchedDet': seq<nat>, matchedTrk': seq<int>, unmatchedDet': seq<nat>, unmatchedTrk': seq<int>)
    requires thr > 0.0 && Distinct(trackIds) && a.Length0 > 0 && a.Length1 == |trackIds| > 0
    requires Mirrors(a, m, zr, zc)
    requires Progress(trackIds, full, Greedy(m, |trackIds|, thr, zr, zc), zr, zc, done, matchedDet, matchedTrk)
    requires Leftovers(a.Length0, trackIds, matchedDet, matchedTrk, unmatchedDet, unmatchedTrk)
    modifies a
    ensures stop ==> Progress(trackIds, full, [], zr, zc, done, matchedDet', matchedTrk')
    ensures !stop ==> Mirrors(a, m, zr + {i}, zc + {j})
    ensures !stop ==> Progress(trackIds, full, Greedy(m, |trackIds|, thr, zr + {i}, zc + {j}), zr + {i}, zc + {j},
                               done + [(i, j)], matchedDet', matchedTrk')
    ensures !stop ==> i < a.Length0 && i !in zr
    ensures Leftovers(a.Length0, trackIds, matchedDet', matchedTrk', unmatchedDet', unmatchedTrk')
  {
    var maxScore;
    i, j, maxScore := MaxCell(a, m, zr, zc, thr);
    if maxScore < thr {
      return i, j, true, matchedDet, matchedTrk, unmatchedDet, unmatchedTrk;
    }
    ProgressCommit(trackIds, full, Greedy(m, |trackIds|, thr, zr, zc), Greedy(m, |trackIds|, thr, zr + {i}, zc + {j}),
                   zr, zc, done, matchedDet, matchedTrk, i, j);
    matchedDet', matchedTrk', unmatchedDet', unmatchedTrk' :=
      Commit(a, trackIds, i, j, m, zr, zc, matchedDet, matchedTrk, unmatchedDet, unmatchedTrk);
    stop := false;
  }
}

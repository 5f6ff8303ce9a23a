/** Backtracking through the direction matrix of magnumopus/nw_all_alignments.py:
    traverse_all_paths as a recursive function over the filled matrix, and an
    independent definition of the alignments it enumerates, read off the
    recurrence, together with what those alignments are. */
module NwBacktrack {
  import opened Alignments
  import opened NwScoring

  /** One enumerated alignment: the gapped first sequence and the gapped second. */
  type Pair = (string, string)

  /** The direction code of a column, read the way the traversal writes it:
      a gap on the first side comes from a Right step, a gap on the second from
      a Down step, two symbols from a Diag step. */
  function ColumnKind(x: char, y: char): (code: int)
    ensures code == Diag || code == Right || code == Down
  {
    if x == Gap then Right else if y == Gap then Down else Diag
  }

  /** The direction code of an alignment's last column; Origin for the empty alignment. */
  function LastKind(s: string, t: string): int
  {
    if s == [] || t == [] then Origin else ColumnKind(s[|s| - 1], t[|t| - 1])
  }

  /** (s, t) aligns a[..i] against b[..j] and scores Score(a, b, p, i, j). */
  predicate Optimal(a: string, b: string, p: Scoring, i: nat, j: nat, s: string, t: string)
    requires i <= |a| && j <= |b|
  {
    IsAlignment(s, t, a[..i], b[..j]) && AlignmentScore(p, s, t) == Score(a, b, p, i, j)
  }

  predicate GapFree(a: string, b: string)
  {
    Gap !in a && Gap !in b
  }

  predicate NoDuplicates<T(==)>(xs: seq<T>)
  {
    forall u, w :: 0 <= u < w < |xs| ==> xs[u] != xs[w]
  }

  /** Appends the columns u over v to every alignment of S. */
  function Attach(S: seq<Pair>, u: string, v: string): (r: seq<Pair>)
    ensures |r| == |S|
    ensures forall n :: 0 <= n < |S| ==> r[n] == (S[n].0 + u, S[n].1 + v)
  {
    seq(|S|, n requires 0 <= n < |S| => (S[n].0 + u, S[n].1 + v))
  }

  lemma AttachConcat(S: seq<Pair>, T: seq<Pair>, u: string, v: string)
    ensures Attach(S + T, u, v) == Attach(S, u, v) + Attach(T, u, v)
  {
  }

  lemma AttachTwice(S: seq<Pair>, u: string, v: string, u': string, v': string)
    ensures Attach(Attach(S, u, v), u', v') == Attach(S, u + u', v + v')
  {
    forall n | 0 <= n < |S|
      ensures Attach(Attach(S, u, v), u', v')[n] == Attach(S, u + u', v + v')[n]
    {
      assert S[n].0 + u + u' == S[n].0 + (u + u');
      assert S[n].1 + v + v' == S[n].1 + (v + v');
    }
  }

  /** traverse_all_paths(cell, path, row, col, aln_a, aln_b, ...) with cell =
      dm[row][col]: the alignments it yields, in order. aln_a and aln_b hold the
      columns already walked, last column first; reaching the origin yields
      them reversed. Otherwise the direction at index path is followed, and
      every direction of the predecessor cell is explored, highest index first. */
  function Traverse(dm: seq<seq<seq<int>>>, a: string, b: string, path: nat, row: nat, col: nat,
                    alnA: string, alnB: string): seq<Pair>
    requires WellFormed(dm, |a|, |b|) && row <= |a| && col <= |b| && path < |dm[row][col]|
    decreases row + col, 0, 0
  {
    var here := if row == 0 && col == 0 then [(Reverse(alnA), Reverse(alnB))] else [];
    var code := dm[row][col][path];
    assert CodeFits(row, col, code);
    here +
      if code == Diag then
        Explore(dm, a, b, |dm[row - 1][col - 1]|, row - 1, col - 1, alnA + [a[row - 1]], alnB + [b[col - 1]])
      else if code == Right then
        Explore(dm, a, b, |dm[row][col - 1]|, row, col - 1, alnA + [Gap], alnB + [b[col - 1]])
      else if code == Down then
        Explore(dm, a, b, |dm[row - 1][col]|, row - 1, col, alnA + [a[row - 1]], alnB + [Gap])
      else []
  }

  /** The `while path > 0` loop of traverse_all_paths: the recursive calls for
      indices k-1, k-2, ..., 0 of the cell's direction list, in that order. */
  function Explore(dm: seq<seq<seq<int>>>, a: string, b: string, k: nat, row: nat, col: nat,
                   alnA: string, alnB: string): seq<Pair>
    requires WellFormed(dm, |a|, |b|) && row <= |a| && col <= |b| && k <= |dm[row][col]|
    decreases row + col, 1, k
  {
    if k == 0 then []
    else Traverse(dm, a, b, k - 1, row, col, alnA, alnB) + Explore(dm, a, b, k - 1, row, col, alnA, alnB)
  }

  /** find_optimal_alignment: the alignments yielded from the last cell, starting
      with the last of its directions, and the score stored there. */
  function FindOptimalAlignment(sm: seq<seq<int>>, dm: seq<seq<seq<int>>>, a: string, b: string): (seq<Pair>, int)
    requires WellFormed(dm, |a|, |b|) && |dm[|a|][|b|]| > 0
    requires |sm| == |a| + 1 && |sm[|a|]| == |b| + 1
  {
    (Traverse(dm, a, b, |dm[|a|][|b|]| - 1, |a|, |b|, "", ""), sm[|a|][|b|])
  }

  /** The direction at index k of cell (i, j) leads somewhere, unless (i, j) is the origin. */
  lemma ListedLeads(a: string, b: string, p: Scoring, i: nat, j: nat, k: nat)
    requires i <= |a| && j <= |b| && k < |Dirs(a, b, p, i, j)| && (i, j) != (0, 0)
    ensures Leads(i, j, Dirs(a, b, p, i, j)[k])
    ensures Score(a, b, p, i, j) ==
      Score(a, b, p, PredRow(i, j, Dirs(a, b, p, i, j)[k]), PredCol(i, j, Dirs(a, b, p, i, j)[k])) +
      StepScore(a, b, p, i, j, Dirs(a, b, p, i, j)[k])
  {
    DirsAreTies(a, b, p, i, j);
    assert Dirs(a, b, p, i, j)[k] in Dirs(a, b, p, i, j);
  }

  /** The enumeration as a path structure over a direction matrix, without the
      traversal's accumulators: the alignments of a[..i] against b[..j] that
      end with the step of direction k of cell (i, j), each preceded by those
      of every direction of the predecessor cell, highest index first. */
  function Paths(dm: seq<seq<seq<int>>>, a: string, b: string, i: nat, j: nat, k: nat): seq<Pair>
    requires WellFormed(dm, |a|, |b|) && i <= |a| && j <= |b| && k < |dm[i][j]|
    decreases i + j, 0, 0
  {
    var code := dm[i][j][k];
    if i == 0 && j == 0 then [("", "")]
    else if Leads(i, j, code) then
      var pi, pj := PredRow(i, j, code), PredCol(i, j, code);
      var column := StepColumn(a, b, i, j, code);
      Attach(PathsBelow(dm, a, b, pi, pj, |dm[pi][pj]|), [column.0], [column.1])
    else []
  }

  /** The alignments through directions K-1, K-2, ..., 0 of cell (i, j). */
  function PathsBelow(dm: seq<seq<seq<int>>>, a: string, b: string, i: nat, j: nat, K: nat): seq<Pair>
    requires WellFormed(dm, |a|, |b|) && i <= |a| && j <= |b| && K <= |dm[i][j]|
    decreases i + j, 1, K
  {
    if K == 0 then [] else Paths(dm, a, b, i, j, K - 1) + PathsBelow(dm, a, b, i, j, K - 1)
  }

  lemma DirMatrixWellFormed(dm: seq<seq<seq<int>>>, a: string, b: string, p: Scoring)
    requires IsDirMatrix(dm, a, b, p)
    ensures WellFormed(dm, |a|, |b|)
    ensures |dm[|a|][|b|]| > 0
  {
    var d := DirMatrix(a, b, p);
    forall i, j, k | 0 <= i <= |a| && 0 <= j <= |b| && 0 <= k < |dm[i][j]|
      ensures CodeFits(i, j, dm[i][j][k])
    {
      assert dm[i][j] == Dirs(a, b, p, i, j) == d[i][j];
    }
    assert dm[|a|][|b|] == Dirs(a, b, p, |a|, |b|) == d[|a|][|b|];
  }

  /** The traversal yields exactly the path enumeration, each alignment
      followed by the columns already walked. */
  lemma {:induction false} TraverseIsPaths(dm: seq<seq<seq<int>>>, a: string, b: string,
                                           path: nat, row: nat, col: nat, alnA: string, alnB: string)
    requires WellFormed(dm, |a|, |b|) && row <= |a| && col <= |b| && path < |dm[row][col]|
    ensures Traverse(dm, a, b, path, row, col, alnA, alnB) == Attach(Paths(dm, a, b, row, col, path), Reverse(alnA), Reverse(alnB))
    decreases row + col, 0, 0
  {
    var code := dm[row][col][path];
    assert CodeFits(row, col, code);
    if row == 0 && col == 0 {
      assert "" + Reverse(alnA) == Reverse(alnA) && "" + Reverse(alnB) == Reverse(alnB);
      assert Attach([("", "")], Reverse(alnA), Reverse(alnB)) == [(Reverse(alnA), Reverse(alnB))];
    } else if Leads(row, col, code) {
      var pi, pj := PredRow(row, col, code), PredCol(row, col, code);
      var column := StepColumn(a, b, row, col, code);
      ExploreIsPathsBelow(dm, a, b, |dm[pi][pj]|, pi, pj, alnA + [column.0], alnB + [column.1]);
      ReverseSnoc(alnA, column.0);
      ReverseSnoc(alnB, column.1);
      AttachTwice(PathsBelow(dm, a, b, pi, pj, |dm[pi][pj]|), [column.0], [column.1], Reverse(alnA), Reverse(alnB));
    }
  }

  lemma {:induction false} ExploreIsPathsBelow(dm: seq<seq<seq<int>>>, a: string, b: string,
                                               k: nat, row: nat, col: nat, alnA: string, alnB: string)
    requires WellFormed(dm, |a|, |b|) && row <= |a| && col <= |b| && k <= |dm[row][col]|
    ensures Explore(dm, a, b, k, row, col, alnA, alnB) == Attach(PathsBelow(dm, a, b, row, col, k), Reverse(alnA), Reverse(alnB))
    decreases row + col, 1, k
  {
    if k > 0 {
      assert Explore(dm, a, b, k, row, col, alnA, alnB) ==
        Traverse(dm, a, b, k - 1, row, col, alnA, alnB) + Explore(dm, a, b, k - 1, row, col, alnA, alnB);
      assert PathsBelow(dm, a, b, row, col, k) == Paths(dm, a, b, row, col, k - 1) + PathsBelow(dm, a, b, row, col, k - 1);
      TraverseIsPaths(dm, a, b, k - 1, row, col, alnA, alnB);
      ExploreIsPathsBelow(dm, a, b, k - 1, row, col, alnA, alnB);
      AttachConcat(Paths(dm, a, b, row, col, k - 1), PathsBelow(dm, a, b, row, col, k - 1), Reverse(alnA), Reverse(alnB));
    }
  }
}

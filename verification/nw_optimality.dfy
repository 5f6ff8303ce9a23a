/** What the enumeration of magnumopus/nw_all_alignments.py produces: every
    enumerated pair is a co-optimal global alignment, every co-optimal alignment
    ending with the chosen direction is enumerated, none twice, and the
    alignments below a cell come grouped by direction, highest code first. */
module NwOptimality {
  import opened Alignments
  import opened NwScoring
  import opened NwBacktrack

  /** Cancelling a common suffix. */
  lemma SuffixCancel(x: string, y: string, u: string)
    ensures x + u == y + u ==> x == y
  {
    if x + u == y + u {
      assert |x| == |y|;
      assert (x + u)[..|x|] == x && (y + u)[..|y|] == y;
    }
  }

  /** A non-empty string is its prefix followed by its last symbol. */
  lemma SplitLast(s: string)
    requires s != []
    ensures s == s[..|s| - 1] + [s[|s| - 1]]
  {
  }

  /** A prefix of w that ends with x. */
  lemma SnocPrefix(u: string, x: char, w: string, j: nat)
    requires j <= |w| && u + [x] == w[..j]
    ensures 1 <= j && x == w[j - 1] && u == w[..j - 1]
  {
    assert |u| + 1 == j;
    assert (u + [x])[|u|] == x;
    assert (u + [x])[..|u|] == u;
    assert w[..j][..j - 1] == w[..j - 1];
  }

  /** The last column of an alignment of a[..i] against b[..j] is the column of
      the direction it is read as; removing it leaves an alignment of the
      predecessor cell's prefixes, and its column score is that direction's step. */
  lemma LastColumn(a: string, b: string, p: Scoring, i: nat, j: nat, s: string, t: string)
    requires i <= |a| && j <= |b| && IsAlignment(s, t, a[..i], b[..j]) && s != []
    ensures Leads(i, j, LastKind(s, t))
    ensures StepColumn(a, b, i, j, LastKind(s, t)) == (s[|s| - 1], t[|t| - 1])
    ensures IsAlignment(s[..|s| - 1], t[..|t| - 1], a[..PredRow(i, j, LastKind(s, t))], b[..PredCol(i, j, LastKind(s, t))])
    ensures ColumnScore(p, s[|s| - 1], t[|t| - 1]) == StepScore(a, b, p, i, j, LastKind(s, t))
  {
    var s', t', x, y := s[..|s| - 1], t[..|t| - 1], s[|s| - 1], t[|t| - 1];
    assert NoEmptyColumn(s', t') by {
      forall k | 0 <= k < |s'| && k < |t'| ensures s'[k] != Gap || t'[k] != Gap {
        assert s'[k] == s[k] && t'[k] == t[k];
      }
    }
    assert x != Gap || y != Gap;
    assert Ungap(s) == Ungap(s') + (if x == Gap then [] else [x]);
    assert Ungap(t) == Ungap(t') + (if y == Gap then [] else [y]);
    if x == Gap {
      assert LastKind(s, t) == Right;
      SnocPrefix(Ungap(t'), y, b, j);
    } else if y == Gap {
      assert LastKind(s, t) == Down;
      SnocPrefix(Ungap(s'), x, a, i);
    } else {
      assert LastKind(s, t) == Diag;
      SnocPrefix(Ungap(s'), x, a, i);
      SnocPrefix(Ungap(t'), y, b, j);
    }
  }

  /** An alignment of two empty prefixes is empty, and only those. */
  lemma EmptyExactlyAtOrigin(a: string, b: string, i: nat, j: nat, s: string, t: string)
    requires i <= |a| && j <= |b| && IsAlignment(s, t, a[..i], b[..j])
    ensures s == [] <==> i == 0 && j == 0
    ensures t == [] <==> i == 0 && j == 0
  {
    AlignmentLength(s, t, a[..i], b[..j]);
  }

  /** No alignment of a[..i] against b[..j] scores above Score(a, b, p, i, j):
      the recurrence is an upper bound for every alignment, whatever symbols
      the sequences hold. */
  lemma {:induction false} UpperBound(a: string, b: string, p: Scoring, i: nat, j: nat, s: string, t: string)
    requires i <= |a| && j <= |b| && IsAlignment(s, t, a[..i], b[..j])
    ensures AlignmentScore(p, s, t) <= Score(a, b, p, i, j)
    decreases |s|
  {
    EmptyExactlyAtOrigin(a, b, i, j, s, t);
    if s != [] {
      LastColumn(a, b, p, i, j, s, t);
      var code := LastKind(s, t);
      UpperBound(a, b, p, PredRow(i, j, code), PredCol(i, j, code), s[..|s| - 1], t[..|t| - 1]);
      ScoreCoversSteps(a, b, p, i, j, code);
    }
  }

  /** The last column of an optimal alignment is one of the cell's listed directions. */
  lemma KindListed(a: string, b: string, p: Scoring, i: nat, j: nat, s: string, t: string)
    requires i <= |a| && j <= |b| && Optimal(a, b, p, i, j, s, t)
    ensures LastKind(s, t) in Dirs(a, b, p, i, j)
  {
    EmptyExactlyAtOrigin(a, b, i, j, s, t);
    if s != [] {
      LastColumn(a, b, p, i, j, s, t);
      var code := LastKind(s, t);
      UpperBound(a, b, p, PredRow(i, j, code), PredCol(i, j, code), s[..|s| - 1], t[..|t| - 1]);
      ScoreCoversSteps(a, b, p, i, j, code);
      DirsAreTies(a, b, p, i, j);
    }
  }

  /** Extending an optimal alignment of the predecessor cell by a step that
      reproduces the cell's score gives an optimal alignment of the cell that
      ends with that step. */
  lemma ExtendOptimal(a: string, b: string, p: Scoring, i: nat, j: nat, code: int, s: string, t: string)
    requires GapFree(a, b) && i <= |a| && j <= |b| && Leads(i, j, code)
    requires Score(a, b, p, i, j) ==
      Score(a, b, p, PredRow(i, j, code), PredCol(i, j, code)) + StepScore(a, b, p, i, j, code)
    requires Optimal(a, b, p, PredRow(i, j, code), PredCol(i, j, code), s, t)
    ensures Optimal(a, b, p, i, j, s + [StepColumn(a, b, i, j, code).0], t + [StepColumn(a, b, i, j, code).1])
    ensures LastKind(s + [StepColumn(a, b, i, j, code).0], t + [StepColumn(a, b, i, j, code).1]) == code
  {
    AppendStep(a, b, p, i, j, code, s, t);
  }

  /** Appending the column of a direction to an alignment of the predecessor
      cell's prefixes gives an alignment of the cell's prefixes, adds the step's
      score and ends with that direction, when neither sequence holds a gap symbol. */
  lemma AppendStep(a: string, b: string, p: Scoring, i: nat, j: nat, code: int, s: string, t: string)
    requires GapFree(a, b) && i <= |a| && j <= |b| && Leads(i, j, code)
    requires IsAlignment(s, t, a[..PredRow(i, j, code)], b[..PredCol(i, j, code)])
    ensures IsAlignment(s + [StepColumn(a, b, i, j, code).0], t + [StepColumn(a, b, i, j, code).1], a[..i], b[..j])
    ensures AlignmentScore(p, s + [StepColumn(a, b, i, j, code).0], t + [StepColumn(a, b, i, j, code).1])
      == AlignmentScore(p, s, t) + StepScore(a, b, p, i, j, code)
    ensures LastKind(s + [StepColumn(a, b, i, j, code).0], t + [StepColumn(a, b, i, j, code).1]) == code
  {
    var x, y := StepColumn(a, b, i, j, code).0, StepColumn(a, b, i, j, code).1;
    if code != Right {
      assert x == a[i - 1] && a[i - 1] in a;
      PrefixSnoc(a, i);
    }
    if code != Down {
      assert y == b[j - 1] && b[j - 1] in b;
      PrefixSnoc(b, j);
    }
    SnocColumn(p, s, t, x, y);
  }

  /** Away from the origin, every direction the filled matrix lists at a cell
      leads to a predecessor whose score plus the step reproduces the cell's. */
  lemma CellLeads(dm: seq<seq<seq<int>>>, a: string, b: string, p: Scoring, i: nat, j: nat, k: nat)
    requires IsDirMatrix(dm, a, b, p) && i <= |a| && j <= |b| && (i, j) != (0, 0) && k < |dm[i][j]|
    ensures Leads(i, j, dm[i][j][k])
    ensures Score(a, b, p, i, j) ==
      Score(a, b, p, PredRow(i, j, dm[i][j][k]), PredCol(i, j, dm[i][j][k])) + StepScore(a, b, p, i, j, dm[i][j][k])
  {
    assert dm[i][j] == Dirs(a, b, p, i, j);
    ListedLeads(a, b, p, i, j, k);
  }

  /** Every cell of the filled matrix lists at least one direction, in
      ascending order; the origin lists only Origin. */
  lemma CellShape(dm: seq<seq<seq<int>>>, a: string, b: string, p: Scoring, i: nat, j: nat)
    requires IsDirMatrix(dm, a, b, p) && i <= |a| && j <= |b|
    ensures |dm[i][j]| > 0
    ensures forall u, w :: 0 <= u < w < |dm[i][j]| ==> dm[i][j][u] < dm[i][j][w]
    ensures i == 0 && j == 0 ==> dm[i][j] == [Origin]
  {
    assert dm[i][j] == Dirs(a, b, p, i, j);
    DirsAreTies(a, b, p, i, j);
  }

  /** The last column of an optimal alignment is listed at its cell. */
  lemma CellListsKind(dm: seq<seq<seq<int>>>, a: string, b: string, p: Scoring, i: nat, j: nat, s: string, t: string)
    returns (k: nat)
    requires IsDirMatrix(dm, a, b, p) && i <= |a| && j <= |b| && Optimal(a, b, p, i, j, s, t)
    ensures k < |dm[i][j]| && dm[i][j][k] == LastKind(s, t)
  {
    KindListed(a, b, p, i, j, s, t);
    var d := Dirs(a, b, p, i, j);
    assert dm[i][j] == d;
    k :| 0 <= k < |d| && d[k] == LastKind(s, t);
  }

  /** Removing the last column of an optimal alignment that ends with a listed
      direction leaves an optimal alignment of the predecessor cell's prefixes. */
  lemma OptimalPrefix(dm: seq<seq<seq<int>>>, a: string, b: string, p: Scoring, i: nat, j: nat, k: nat, s: string, t: string)
    requires IsDirMatrix(dm, a, b, p) && i <= |a| && j <= |b| && k < |dm[i][j]|
    requires Optimal(a, b, p, i, j, s, t) && s != [] && LastKind(s, t) == dm[i][j][k]
    ensures Leads(i, j, LastKind(s, t))
    ensures StepColumn(a, b, i, j, LastKind(s, t)) == (s[|s| - 1], t[|t| - 1])
    ensures Optimal(a, b, p, PredRow(i, j, LastKind(s, t)), PredCol(i, j, LastKind(s, t)), s[..|s| - 1], t[..|t| - 1])
  {
    EmptyExactlyAtOrigin(a, b, i, j, s, t);
    LastColumn(a, b, p, i, j, s, t);
    CellLeads(dm, a, b, p, i, j, k);
  }

  /** Every alignment listed below a cell is listed through one of the
      directions K-1, ..., 0. */
  lemma {:induction false} BelowIndex(dm: seq<seq<seq<int>>>, a: string, b: string, i: nat, j: nat, K: nat, st: Pair)
    returns (k: nat)
    requires WellFormed(dm, |a|, |b|) && i <= |a| && j <= |b| && K <= |dm[i][j]|
    requires st in PathsBelow(dm, a, b, i, j, K)
    ensures k < K && st in Paths(dm, a, b, i, j, k)
    decreases K
  {
    var first, rest := Paths(dm, a, b, i, j, K - 1), PathsBelow(dm, a, b, i, j, K - 1);
    assert PathsBelow(dm, a, b, i, j, K) == first + rest;
    if st in first {
      k := K - 1;
    } else {
      k := BelowIndex(dm, a, b, i, j, K - 1, st);
    }
  }

  /** Every alignment listed through direction k < K of a cell is listed below it. */
  lemma {:induction false} InPathsBelow(dm: seq<seq<seq<int>>>, a: string, b: string, i: nat, j: nat, k: nat, K: nat, st: Pair)
    requires WellFormed(dm, |a|, |b|) && i <= |a| && j <= |b| && k < K <= |dm[i][j]|
    requires st in Paths(dm, a, b, i, j, k)
    ensures st in PathsBelow(dm, a, b, i, j, K)
    decreases K
  {
    var first, rest := Paths(dm, a, b, i, j, K - 1), PathsBelow(dm, a, b, i, j, K - 1);
    assert PathsBelow(dm, a, b, i, j, K) == first + rest;
    if k < K - 1 {
      InPathsBelow(dm, a, b, i, j, k, K - 1, st);
    }
  }

  /** Every alignment enumerated through direction k of cell (i, j) of the
      filled direction matrix is optimal for the cell's prefixes and ends with
      that direction. */
  lemma {:induction false} PathsSound(dm: seq<seq<seq<int>>>, a: string, b: string, p: Scoring, i: nat, j: nat, k: nat, st: Pair)
    requires GapFree(a, b) && IsDirMatrix(dm, a, b, p) && WellFormed(dm, |a|, |b|)
    requires i <= |a| && j <= |b| && k < |dm[i][j]| && st in Paths(dm, a, b, i, j, k)
    ensures Optimal(a, b, p, i, j, st.0, st.1) && LastKind(st.0, st.1) == dm[i][j][k]
    decreases i + j
  {
    if i == 0 && j == 0 {
      CellShape(dm, a, b, p, i, j);
      assert Ungap("") == "" == a[..0] == b[..0];
    } else {
      CellLeads(dm, a, b, p, i, j, k);
      var code := dm[i][j][k];
      var pi, pj := PredRow(i, j, code), PredCol(i, j, code);
      var column := StepColumn(a, b, i, j, code);
      var below := PathsBelow(dm, a, b, pi, pj, |dm[pi][pj]|);
      assert Paths(dm, a, b, i, j, k) == Attach(below, [column.0], [column.1]);
      var n :| 0 <= n < |below| && st == (below[n].0 + [column.0], below[n].1 + [column.1]);
      assert below[n] in below;
      var q := BelowIndex(dm, a, b, pi, pj, |dm[pi][pj]|, below[n]);
      PathsSound(dm, a, b, p, pi, pj, q, below[n]);
      ExtendOptimal(a, b, p, i, j, code, below[n].0, below[n].1);
    }
  }

  /** Only the last column of an enumerated alignment: it has the kind of the
      direction it was enumerated through. */
  lemma PathsKind(dm: seq<seq<seq<int>>>, a: string, b: string, p: Scoring, i: nat, j: nat, k: nat, st: Pair)
    requires GapFree(a, b) && IsDirMatrix(dm, a, b, p) && WellFormed(dm, |a|, |b|)
    requires i <= |a| && j <= |b| && k < |dm[i][j]| && st in Paths(dm, a, b, i, j, k)
    ensures LastKind(st.0, st.1) == dm[i][j][k]
  {
    PathsSound(dm, a, b, p, i, j, k, st);
  }

  /** Every optimal alignment of a[..i] against b[..j] that ends with direction
      k of cell (i, j) is enumerated, whatever symbols the sequences hold. */
  lemma {:induction false} PathsComplete(dm: seq<seq<seq<int>>>, a: string, b: string, p: Scoring, i: nat, j: nat, k: nat, s: string, t: string)
    requires IsDirMatrix(dm, a, b, p) && WellFormed(dm, |a|, |b|)
    requires i <= |a| && j <= |b| && k < |dm[i][j]|
    requires Optimal(a, b, p, i, j, s, t) && LastKind(s, t) == dm[i][j][k]
    ensures (s, t) in Paths(dm, a, b, i, j, k)
    decreases i + j
  {
    EmptyExactlyAtOrigin(a, b, i, j, s, t);
    if s != [] {
      OptimalPrefix(dm, a, b, p, i, j, k, s, t);
      var code := LastKind(s, t);
      var pi, pj := PredRow(i, j, code), PredCol(i, j, code);
      var s', t' := s[..|s| - 1], t[..|t| - 1];
      var k' := CellListsKind(dm, a, b, p, pi, pj, s', t');
      PathsComplete(dm, a, b, p, pi, pj, k', s', t');
      InPathsBelow(dm, a, b, pi, pj, k', |dm[pi][pj]|, (s', t'));
      var below := PathsBelow(dm, a, b, pi, pj, |dm[pi][pj]|);
      var column := StepColumn(a, b, i, j, code);
      assert Paths(dm, a, b, i, j, k) == Attach(below, [column.0], [column.1]);
      var n :| 0 <= n < |below| && below[n] == (s', t');
      SplitLast(s);
      SplitLast(t);
      assert Attach(below, [column.0], [column.1])[n] == (s, t);
    }
  }

  /** The filled direction matrix enumerates something through every direction. */
  lemma {:induction false} PathsNonEmpty(dm: seq<seq<seq<int>>>, a: string, b: string, p: Scoring, i: nat, j: nat, k: nat)
    requires IsDirMatrix(dm, a, b, p) && WellFormed(dm, |a|, |b|)
    requires i <= |a| && j <= |b| && k < |dm[i][j]|
    ensures |Paths(dm, a, b, i, j, k)| > 0
    decreases i + j
  {
    if i != 0 || j != 0 {
      CellLeads(dm, a, b, p, i, j, k);
      var code := dm[i][j][k];
      var pi, pj := PredRow(i, j, code), PredCol(i, j, code);
      CellShape(dm, a, b, p, pi, pj);
      var K := |dm[pi][pj]|;
      PathsNonEmpty(dm, a, b, p, pi, pj, K - 1);
      assert PathsBelow(dm, a, b, pi, pj, K) == Paths(dm, a, b, pi, pj, K - 1) + PathsBelow(dm, a, b, pi, pj, K - 1);
    }
  }

  /** Appending the same columns keeps distinct alignments distinct. */
  lemma AttachDistinct(S: seq<Pair>, u: string, v: string)
    requires NoDuplicates(S)
    ensures NoDuplicates(Attach(S, u, v))
  {
    forall x, y | 0 <= x < y < |S| ensures Attach(S, u, v)[x] != Attach(S, u, v)[y] {
      SuffixCancel(S[x].0, S[y].0, u);
      SuffixCancel(S[x].1, S[y].1, v);
    }
  }

  /** Different paths through the filled direction matrix give different alignments. */
  lemma {:induction false} PathsDistinct(dm: seq<seq<seq<int>>>, a: string, b: string, p: Scoring, i: nat, j: nat, k: nat)
    requires GapFree(a, b) && IsDirMatrix(dm, a, b, p) && WellFormed(dm, |a|, |b|)
    requires i <= |a| && j <= |b| && k < |dm[i][j]|
    ensures NoDuplicates(Paths(dm, a, b, i, j, k))
    decreases i + j, 0, 0
  {
    var code := dm[i][j][k];
    if (i != 0 || j != 0) && Leads(i, j, code) {
      var pi, pj := PredRow(i, j, code), PredCol(i, j, code);
      var column := StepColumn(a, b, i, j, code);
      var below := PathsBelow(dm, a, b, pi, pj, |dm[pi][pj]|);
      PathsBelowOrdered(dm, a, b, p, pi, pj, |dm[pi][pj]|);
      AttachDistinct(below, [column.0], [column.1]);
    }
  }

  /** An alignment enumerated through direction K-1 ends with a higher direction
      code than any enumerated through directions K-2, ..., 0. */
  lemma LaterDirectionFirst(dm: seq<seq<seq<int>>>, a: string, b: string, p: Scoring, i: nat, j: nat, K: nat, x: Pair, y: Pair)
    requires GapFree(a, b) && IsDirMatrix(dm, a, b, p) && WellFormed(dm, |a|, |b|)
    requires i <= |a| && j <= |b| && 0 < K <= |dm[i][j]|
    requires x in Paths(dm, a, b, i, j, K - 1) && y in PathsBelow(dm, a, b, i, j, K - 1)
    ensures LastKind(x.0, x.1) > LastKind(y.0, y.1)
    ensures x != y
  {
    PathsKind(dm, a, b, p, i, j, K - 1, x);
    var q := BelowIndex(dm, a, b, i, j, K - 1, y);
    PathsKind(dm, a, b, p, i, j, q, y);
    CellShape(dm, a, b, p, i, j);
  }

  /** Below a cell the enumeration follows its directions from the highest
      index down: the last columns of the listed alignments never increase, and
      no alignment is listed twice. */
  lemma {:induction false} PathsBelowOrdered(dm: seq<seq<seq<int>>>, a: string, b: string, p: Scoring, i: nat, j: nat, K: nat)
    requires GapFree(a, b) && IsDirMatrix(dm, a, b, p) && WellFormed(dm, |a|, |b|)
    requires i <= |a| && j <= |b| && K <= |dm[i][j]|
    ensures NoDuplicates(PathsBelow(dm, a, b, i, j, K))
    ensures forall u, w :: 0 <= u < w < |PathsBelow(dm, a, b, i, j, K)| ==>
      LastKind(PathsBelow(dm, a, b, i, j, K)[u].0, PathsBelow(dm, a, b, i, j, K)[u].1) >=
      LastKind(PathsBelow(dm, a, b, i, j, K)[w].0, PathsBelow(dm, a, b, i, j, K)[w].1)
    decreases i + j, 1, K
  {
    if K > 0 {
      var first, rest := Paths(dm, a, b, i, j, K - 1), PathsBelow(dm, a, b, i, j, K - 1);
      var all := PathsBelow(dm, a, b, i, j, K);
      assert all == first + rest;
      PathsDistinct(dm, a, b, p, i, j, K - 1);
      PathsBelowOrdered(dm, a, b, p, i, j, K - 1);
      forall u, w | 0 <= u < |first| <= w < |all|
        ensures all[u] != all[w] && LastKind(all[u].0, all[u].1) > LastKind(all[w].0, all[w].1)
      {
        assert all[u] == first[u] && first[u] in first;
        assert all[w] == rest[w - |first|] && rest[w - |first|] in rest;
        LaterDirectionFirst(dm, a, b, p, i, j, K, first[u], rest[w - |first|]);
      }
      forall u | 0 <= u < |first| ensures LastKind(all[u].0, all[u].1) == dm[i][j][K - 1] {
        assert first[u] in first;
        PathsKind(dm, a, b, p, i, j, K - 1, first[u]);
      }
    }
  }
}

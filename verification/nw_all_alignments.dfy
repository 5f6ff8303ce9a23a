/** needleman_wunsch of magnumopus/nw_all_alignments.py: allocate the two
    matrices, fill them, and collect every alignment the traversal yields from
    the last cell together with the score stored there. */
module NwAllAlignments {
  import opened Alignments
  import opened NwScoring
  import opened NwMatrices
  import opened NwBacktrack
  import opened NwOptimality

  /** The last direction listed at the bottom-right cell: the only one the
      traversal starts from. */
  function StartDirection(a: string, b: string, p: Scoring): (code: int)
    ensures code in Dirs(a, b, p, |a|, |b|)
    ensures forall c :: c in Dirs(a, b, p, |a|, |b|) ==> c <= code
  {
    var d := Dirs(a, b, p, |a|, |b|);
    DirsAreTies(a, b, p, |a|, |b|);
    assert forall u :: 0 <= u < |d| - 1 ==> d[u] < d[|d| - 1];
    d[|d| - 1]
  }

  /** The list needleman_wunsch returns for a and b: the alignments the
      traversal yields over the filled direction matrix, starting from the last
      direction of the bottom-right cell. */
  function Yielded(a: string, b: string, p: Scoring): seq<Pair>
  {
    Paths(DirMatrix(a, b, p), a, b, |a|, |b|, |DirMatrix(a, b, p)[|a|][|b|]| - 1)
  }

  /** The index the traversal starts from in the bottom-right cell. */
  lemma StartIndex(a: string, b: string, p: Scoring) returns (k: nat)
    ensures k < |DirMatrix(a, b, p)[|a|][|b|]| && k == |DirMatrix(a, b, p)[|a|][|b|]| - 1
    ensures DirMatrix(a, b, p)[|a|][|b|][k] == StartDirection(a, b, p)
    ensures Yielded(a, b, p) == Paths(DirMatrix(a, b, p), a, b, |a|, |b|, k)
  {
    var dm := DirMatrix(a, b, p);
    k := |dm[|a|][|b|]| - 1;
    assert dm[|a|][|b|] == Dirs(a, b, p, |a|, |b|);
  }

  lemma WholePrefix(s: string)
    ensures s[..|s|] == s
  {
  }

  /** A matrix that holds Dirs in every cell is the direction matrix. */
  lemma DirMatrixUnique(dm: seq<seq<seq<int>>>, a: string, b: string, p: Scoring)
    requires IsDirMatrix(dm, a, b, p)
    ensures dm == DirMatrix(a, b, p)
  {
    var d := DirMatrix(a, b, p);
    forall i | 0 <= i <= |a| ensures dm[i] == d[i] {
      forall j | 0 <= j <= |b| ensures dm[i][j] == d[i][j] {
        assert dm[i][j] == Dirs(a, b, p, i, j);
      }
    }
  }

  lemma AttachNothing(S: seq<Pair>)
    ensures Attach(S, "", "") == S
  {
    forall n | 0 <= n < |S| ensures Attach(S, "", "")[n] == S[n] {
      assert S[n].0 + "" == S[n].0 && S[n].1 + "" == S[n].1;
    }
  }

  /** The value of find_optimal_alignment over the filled matrices is the
      yielded list and the recurrence's score for the whole sequences. */
  lemma FindOnFilled(sm: seq<seq<int>>, dm: seq<seq<seq<int>>>, a: string, b: string, p: Scoring)
    requires IsDirMatrix(dm, a, b, p) && |sm| == |a| + 1 && |sm[|a|]| == |b| + 1
    requires sm[|a|][|b|] == Score(a, b, p, |a|, |b|)
    ensures WellFormed(dm, |a|, |b|) && |dm[|a|][|b|]| > 0
    ensures FindOptimalAlignment(sm, dm, a, b) == (Yielded(a, b, p), Score(a, b, p, |a|, |b|))
  {
    DirMatrixWellFormed(dm, a, b, p);
    var k := |dm[|a|][|b|]| - 1;
    assert dm == DirMatrix(a, b, p) by {
      DirMatrixUnique(dm, a, b, p);
    }
    assert Traverse(dm, a, b, k, |a|, |b|, "", "") == Paths(dm, a, b, |a|, |b|, k) by {
      TraverseIsPaths(dm, a, b, k, |a|, |b|, "", "");
      AttachNothing(Paths(dm, a, b, |a|, |b|, k));
    }
    assert Yielded(a, b, p) == Paths(dm, a, b, |a|, |b|, k);
    assert FindOptimalAlignment(sm, dm, a, b) == (Traverse(dm, a, b, k, |a|, |b|, "", ""), sm[|a|][|b|]);
  }

  /** needleman_wunsch: the yielded alignments and the optimal global score. */
  method NeedlemanWunsch(a: string, b: string, p: Scoring) returns (alns: seq<Pair>, score: int)
    ensures alns == Yielded(a, b, p)
    ensures score == Score(a, b, p, |a|, |b|)
  {
    var scoreMat, dirMat := GenerateMatrices(|a|, |b|);
    FillMatrix(scoreMat, dirMat, a, b, p);
    var sm, dm := Rows(scoreMat), Rows(dirMat);
    assert IsDirMatrix(dm, a, b, p) by {
      forall i, j | 0 <= i <= |a| && 0 <= j <= |b| ensures dm[i][j] == Dirs(a, b, p, i, j) {
        assert dm[i][j] == dirMat[i, j];
      }
    }
    assert sm[|a|][|b|] == scoreMat[|a|, |b|];
    FindOnFilled(sm, dm, a, b, p);
    var found := FindOptimalAlignment(sm, dm, a, b);
    alns, score := found.0, found.1;
  }

  /** No global alignment of a against b scores above the returned score. */
  lemma ScoreIsMaximum(a: string, b: string, p: Scoring, s: string, t: string)
    requires IsAlignment(s, t, a, b)
    ensures AlignmentScore(p, s, t) <= Score(a, b, p, |a|, |b|)
  {
    assert a[..|a|] == a && b[..|b|] == b;
    UpperBound(a, b, p, |a|, |b|, s, t);
  }

  /** For sequences without the gap symbol, every yielded pair is a global
      alignment of a against b that reaches the returned score and ends with
      the start direction. */
  lemma YieldedSound(a: string, b: string, p: Scoring, st: Pair)
    requires GapFree(a, b) && st in Yielded(a, b, p)
    ensures IsAlignment(st.0, st.1, a, b)
    ensures AlignmentScore(p, st.0, st.1) == Score(a, b, p, |a|, |b|)
    ensures LastKind(st.0, st.1) == StartDirection(a, b, p)
  {
    var dm := DirMatrix(a, b, p);
    assert IsDirMatrix(dm, a, b, p);
    PathsSound(dm, a, b, p, |a|, |b|, |dm[|a|][|b|]| - 1, st);
    assert a[..|a|] == a && b[..|b|] == b;
  }

  /** Every optimal global alignment ending with the start direction is
      yielded, whatever symbols the sequences hold. */
  lemma YieldedComplete(a: string, b: string, p: Scoring, s: string, t: string)
    requires IsAlignment(s, t, a, b) && AlignmentScore(p, s, t) == Score(a, b, p, |a|, |b|)
    requires LastKind(s, t) == StartDirection(a, b, p)
    ensures (s, t) in Yielded(a, b, p)
  {
    var dm := DirMatrix(a, b, p);
    var k := StartIndex(a, b, p);
    WholePrefix(a);
    WholePrefix(b);
    PathsComplete(dm, a, b, p, |a|, |b|, k, s, t);
  }

  /** At least one alignment is yielded. */
  lemma YieldedNonEmpty(a: string, b: string, p: Scoring)
    ensures |Yielded(a, b, p)| > 0
  {
    var dm := DirMatrix(a, b, p);
    assert IsDirMatrix(dm, a, b, p);
    PathsNonEmpty(dm, a, b, p, |a|, |b|, |dm[|a|][|b|]| - 1);
  }

  /** For sequences without the gap symbol, no alignment is yielded twice. */
  lemma YieldedDistinct(a: string, b: string, p: Scoring)
    requires GapFree(a, b)
    ensures NoDuplicates(Yielded(a, b, p))
  {
    var dm := DirMatrix(a, b, p);
    assert IsDirMatrix(dm, a, b, p);
    PathsDistinct(dm, a, b, p, |a|, |b|, |dm[|a|][|b|]| - 1);
  }

  /** The traversal starts only from the last direction of the bottom-right
      cell: when that cell lists two or more tied directions, an optimal
      alignment through the first of them exists and is never yielded. */
  lemma UnexploredTies(a: string, b: string, p: Scoring) returns (s: string, t: string)
    requires GapFree(a, b) && |Dirs(a, b, p, |a|, |b|)| > 1
    ensures IsAlignment(s, t, a, b) && AlignmentScore(p, s, t) == Score(a, b, p, |a|, |b|)
    ensures (s, t) !in Yielded(a, b, p)
  {
    var dm := DirMatrix(a, b, p);
    assert IsDirMatrix(dm, a, b, p);
    PathsNonEmpty(dm, a, b, p, |a|, |b|, 0);
    var st := Paths(dm, a, b, |a|, |b|, 0)[0];
    PathsSound(dm, a, b, p, |a|, |b|, 0, st);
    s, t := st.0, st.1;
    assert a[..|a|] == a && b[..|b|] == b;
    DirsAreTies(a, b, p, |a|, |b|);
    if st in Yielded(a, b, p) {
      YieldedSound(a, b, p, st);
      assert false;
    }
  }

  /** The gapped string of n gap symbols. */
  function Gaps(n: nat): (g: string)
    ensures |g| == n && forall k :: 0 <= k < n ==> g[k] == Gap
  {
    seq(n, k => Gap)
  }

  /** Along the first row the only path runs through Right steps: b[..j]
      against as many gaps. */
  lemma {:induction false} FirstRowPaths(a: string, b: string, p: Scoring, j: nat)
    requires j <= |b|
    ensures Paths(DirMatrix(a, b, p), a, b, 0, j, 0) == [(Gaps(j), b[..j])]
  {
    var dm := DirMatrix(a, b, p);
    assert dm[0][j] == Dirs(a, b, p, 0, j);
    if j > 0 {
      FirstRowPaths(a, b, p, j - 1);
      assert dm[0][j - 1] == Dirs(a, b, p, 0, j - 1);
      assert PathsBelow(dm, a, b, 0, j - 1, 1) == Paths(dm, a, b, 0, j - 1, 0);
      assert Gaps(j - 1) + [Gap] == Gaps(j);
      assert b[..j - 1] + [b[j - 1]] == b[..j];
    }
  }

  /** Aligning against an empty second sequence: the first row's mirror image. */
  lemma {:induction false} FirstColumnPaths(a: string, b: string, p: Scoring, i: nat)
    requires i <= |a|
    ensures Paths(DirMatrix(a, b, p), a, b, i, 0, 0) == [(a[..i], Gaps(i))]
  {
    var dm := DirMatrix(a, b, p);
    assert dm[i][0] == Dirs(a, b, p, i, 0);
    if i > 0 {
      FirstColumnPaths(a, b, p, i - 1);
      assert dm[i - 1][0] == Dirs(a, b, p, i - 1, 0);
      assert PathsBelow(dm, a, b, i - 1, 0, 1) == Paths(dm, a, b, i - 1, 0, 0);
      assert Gaps(i - 1) + [Gap] == Gaps(i);
      assert a[..i - 1] + [a[i - 1]] == a[..i];
    }
  }

  /** An empty first sequence is aligned as gaps against the whole second one,
      for |b| gap penalties, and that is the only alignment yielded. */
  lemma EmptyFirst(b: string, p: Scoring)
    ensures Yielded("", b, p) == [(Gaps(|b|), b)]
    ensures Score("", b, p, 0, |b|) == |b| * p.gap
  {
    FirstRowPaths("", b, p, |b|);
    assert Dirs("", b, p, 0, |b|) == (if |b| == 0 then [Origin] else [Right]);
    assert b[..|b|] == b;
    FirstRowScore("", b, p, |b|);
  }

  /** An empty second sequence: the whole first one against gaps. */
  lemma EmptySecond(a: string, p: Scoring)
    ensures Yielded(a, "", p) == [(a, Gaps(|a|))]
    ensures Score(a, "", p, |a|, 0) == |a| * p.gap
  {
    FirstColumnPaths(a, "", p, |a|);
    assert Dirs(a, "", p, |a|, 0) == (if |a| == 0 then [Origin] else [Down]);
    assert a[..|a|] == a;
    FirstColumnScore(a, "", p, |a|);
  }
}

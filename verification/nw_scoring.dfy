/** The Needleman-Wunsch recurrence of magnumopus/nw_all_alignments.py: the value of
    every cell of the score matrix and the list of tied predecessor directions of
    every cell of the direction matrix, as pure functions of the two sequences. */
module NwScoring {
  import opened Alignments

  /** Direction codes stored in the direction matrix. Backtracking from a cell,
      Diag steps to (i-1, j-1), Right to (i, j-1) and Down to (i-1, j); the
      source names the last two after the forward move that reaches the cell. */
  const Origin: int := -1
  const Diag: int := 0
  const Right: int := 1
  const Down: int := 2

  /** Python's max over a non-empty list of integers. */
  function MaxOf(s: seq<int>): (m: int)
    requires |s| > 0
    ensures m in s
    ensures forall x :: x in s ==> x <= m
  {
    if |s| == 1 then s[0]
    else
      var r := MaxOf(s[1..]);
      assert s == [s[0]] + s[1..];
      if s[0] >= r then s[0] else r
  }

  /** The comprehension [i for i, x in enumerate(s) if x == v]. */
  function Positions(s: seq<int>, v: int): (r: seq<int>)
    ensures forall k :: k in r <==> 0 <= k < |s| && s[k] == v
    ensures forall u, w :: 0 <= u < w < |r| ==> r[u] < r[w]
  {
    PositionsFrom(s, v, 0)
  }

  /** The same comprehension over the indices from k on. */
  function PositionsFrom(s: seq<int>, v: int, k: nat): (r: seq<int>)
    requires k <= |s|
    ensures forall x :: x in r <==> k <= x < |s| && s[x] == v
    ensures forall u, w :: 0 <= u < w < |r| ==> k <= r[u] < r[w]
    decreases |s| - k
  {
    if k == |s| then []
    else
      var rest := PositionsFrom(s, v, k + 1);
      assert forall u :: 0 <= u < |rest| ==> rest[u] in rest;
      (if s[k] == v then [k] else []) + rest
  }

  /** The three candidate values of an inner cell, in the order of the source's
      score_list: diagonal, from the left, from above. */
  function Candidates(a: string, b: string, p: Scoring, i: nat, j: nat): (c: seq<int>)
    requires 1 <= i <= |a| && 1 <= j <= |b|
    decreases i + j, 0
  {
    [ Score(a, b, p, i - 1, j - 1) + Substitution(p, a[i - 1], b[j - 1]),
      Score(a, b, p, i, j - 1) + p.gap,
      Score(a, b, p, i - 1, j) + p.gap ]
  }

  /** The value fill_matrix stores in score_mat[i][j]. */
  function Score(a: string, b: string, p: Scoring, i: nat, j: nat): int
    requires i <= |a| && j <= |b|
    decreases i + j, 1
  {
    if i == 0 && j == 0 then 0
    else if i == 0 then Score(a, b, p, 0, j - 1) + p.gap
    else if j == 0 then Score(a, b, p, i - 1, 0) + p.gap
    else MaxOf(Candidates(a, b, p, i, j))
  }

  /** A direction code that can be followed from cell (i, j) without leaving the matrix. */
  predicate Leads(i: nat, j: nat, code: int)
  {
    (code == Diag && i > 0 && j > 0) || (code == Right && j > 0) || (code == Down && i > 0)
  }

  function PredRow(i: nat, j: nat, code: int): nat
    requires Leads(i, j, code)
  {
    if code == Right then i else i - 1
  }

  function PredCol(i: nat, j: nat, code: int): nat
    requires Leads(i, j, code)
  {
    if code == Down then j else j - 1
  }

  /** What following a direction adds to the predecessor's score. */
  function StepScore(a: string, b: string, p: Scoring, i: nat, j: nat, code: int): int
    requires i <= |a| && j <= |b| && Leads(i, j, code)
  {
    if code == Diag then Substitution(p, a[i - 1], b[j - 1]) else p.gap
  }

  /** The alignment column a direction contributes: both symbols, or a gap opposite one. */
  function StepColumn(a: string, b: string, i: nat, j: nat, code: int): (char, char)
    requires i <= |a| && j <= |b| && Leads(i, j, code)
  {
    if code == Diag then (a[i - 1], b[j - 1])
    else if code == Right then (Gap, b[j - 1])
    else (a[i - 1], Gap)
  }

  /** The list fill_matrix stores in dir_mat[i][j]: [-1] at the origin, [1] along
      the first row, [2] down the first column, and elsewhere the ascending
      indices of the candidates that equal the cell's score. */
  function Dirs(a: string, b: string, p: Scoring, i: nat, j: nat): seq<int>
    requires i <= |a| && j <= |b|
  {
    if i == 0 && j == 0 then [Origin]
    else if i == 0 then [Right]
    else if j == 0 then [Down]
    else Positions(Candidates(a, b, p, i, j), Score(a, b, p, i, j))
  }

  /** A direction list is never empty and strictly ascending, and away from the
      origin it holds exactly the directions whose step reproduces the cell's
      score. */
  lemma DirsAreTies(a: string, b: string, p: Scoring, i: nat, j: nat)
    requires i <= |a| && j <= |b|
    ensures |Dirs(a, b, p, i, j)| > 0
    ensures forall u, w :: 0 <= u < w < |Dirs(a, b, p, i, j)| ==> Dirs(a, b, p, i, j)[u] < Dirs(a, b, p, i, j)[w]
    ensures (i, j) != (0, 0) ==>
      forall code :: code in Dirs(a, b, p, i, j) <==>
        Leads(i, j, code) &&
        Score(a, b, p, i, j) == Score(a, b, p, PredRow(i, j, code), PredCol(i, j, code)) + StepScore(a, b, p, i, j, code)
  {
  }

  /** No step can beat the cell's score. */
  lemma ScoreCoversSteps(a: string, b: string, p: Scoring, i: nat, j: nat, code: int)
    requires i <= |a| && j <= |b| && Leads(i, j, code)
    ensures Score(a, b, p, i, j) >= Score(a, b, p, PredRow(i, j, code), PredCol(i, j, code)) + StepScore(a, b, p, i, j, code)
  {
    if i > 0 && j > 0 {
      var c := Candidates(a, b, p, i, j);
      assert c[code] in c;
    }
  }

  /** The first row holds cumulative gap penalties. */
  lemma {:induction false} FirstRowScore(a: string, b: string, p: Scoring, j: nat)
    requires j <= |b|
    ensures Score(a, b, p, 0, j) == j * p.gap
  {
    if j > 0 {
      FirstRowScore(a, b, p, j - 1);
    }
  }

  /** The first column holds cumulative gap penalties. */
  lemma {:induction false} FirstColumnScore(a: string, b: string, p: Scoring, i: nat)
    requires i <= |a|
    ensures Score(a, b, p, i, 0) == i * p.gap
  {
    if i > 0 {
      FirstColumnScore(a, b, p, i - 1);
    }
  }

  /** Exchanging the last two of three values keeps their maximum. */
  lemma MaxOfSwap(c: seq<int>, c': seq<int>)
    requires |c| == 3 && c' == [c[0], c[2], c[1]]
    ensures MaxOf(c) == MaxOf(c')
  {
    assert MaxOf(c) in c';
    assert MaxOf(c') in c;
  }

  /** Swapping the two sequences transposes the score matrix. */
  lemma {:induction false} ScoreSymmetric(a: string, b: string, p: Scoring, i: nat, j: nat)
    requires i <= |a| && j <= |b|
    ensures Score(a, b, p, i, j) == Score(b, a, p, j, i)
    decreases i + j
  {
    if i == 0 && j == 0 {
    } else if i == 0 {
      ScoreSymmetric(a, b, p, 0, j - 1);
    } else if j == 0 {
      ScoreSymmetric(a, b, p, i - 1, 0);
    } else {
      ScoreSymmetric(a, b, p, i - 1, j - 1);
      ScoreSymmetric(a, b, p, i, j - 1);
      ScoreSymmetric(a, b, p, i - 1, j);
      MaxOfSwap(Candidates(a, b, p, i, j), Candidates(b, a, p, j, i));
    }
  }

  /** The whole score matrix as a value: (|a|+1) rows of |b|+1 cells. */
  function ScoreMatrix(a: string, b: string, p: Scoring): (sm: seq<seq<int>>)
    ensures |sm| == |a| + 1
    ensures forall i :: 0 <= i <= |a| ==> |sm[i]| == |b| + 1
    ensures forall i, j :: 0 <= i <= |a| && 0 <= j <= |b| ==> sm[i][j] == Score(a, b, p, i, j)
  {
    seq(|a| + 1, i requires 0 <= i <= |a| =>
      seq(|b| + 1, j requires 0 <= j <= |b| => Score(a, b, p, i, j)))
  }

  /** A direction code that, read at cell (i, j), never leads out of the matrix. */
  predicate CodeFits(i: nat, j: nat, code: int)
  {
    (code == Diag ==> i > 0 && j > 0) && (code == Right ==> j > 0) && (code == Down ==> i > 0)
  }

  /** A direction matrix shaped (n+1) x (m+1) whose codes stay inside it. */
  predicate WellFormed(dm: seq<seq<seq<int>>>, n: nat, m: nat)
  {
    |dm| == n + 1 &&
    (forall i :: 0 <= i <= n ==> |dm[i]| == m + 1) &&
    (forall i, j, k :: 0 <= i <= n && 0 <= j <= m && 0 <= k < |dm[i][j]| ==> CodeFits(i, j, dm[i][j][k]))
  }

  /** dm is the direction matrix fill_matrix produces for a and b. The cells are
      tied to Dirs only where a proof names Dirs at that cell. */
  predicate IsDirMatrix(dm: seq<seq<seq<int>>>, a: string, b: string, p: Scoring)
  {
    |dm| == |a| + 1 &&
    (forall i :: 0 <= i <= |a| ==> |dm[i]| == |b| + 1) &&
    (forall i, j {:trigger Dirs(a, b, p, i, j)} :: 0 <= i <= |a| && 0 <= j <= |b| ==> dm[i][j] == Dirs(a, b, p, i, j))
  }

  /** The whole direction matrix as a value. It is well formed and its last cell
      is not empty. */
  function DirMatrix(a: string, b: string, p: Scoring): (dm: seq<seq<seq<int>>>)
    ensures WellFormed(dm, |a|, |b|) && IsDirMatrix(dm, a, b, p)
    ensures |dm[|a|][|b|]| > 0
  {
    DirsAreTies(a, b, p, |a|, |b|);
    var dm := seq(|a| + 1, i requires 0 <= i <= |a| =>
      seq(|b| + 1, j requires 0 <= j <= |b| => Dirs(a, b, p, i, j)));
    assert forall i, j, k :: 0 <= i <= |a| && 0 <= j <= |b| && 0 <= k < |dm[i][j]| ==> CodeFits(i, j, dm[i][j][k]) by {
      forall i, j, k | 0 <= i <= |a| && 0 <= j <= |b| && 0 <= k < |dm[i][j]|
        ensures CodeFits(i, j, dm[i][j][k])
      {
        var d := Dirs(a, b, p, i, j);
        DirsAreTies(a, b, p, i, j);
        assert d[k] in d;
      }
    }
    dm
  }
}

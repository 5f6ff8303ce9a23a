/** The matrices of magnumopus/nw_all_alignments.py as mutable two-dimensional
    arrays: allocation by generate_matrices and the in-place fill of fill_matrix. */
module NwMatrices {
  import opened Alignments
  import opened NwScoring

  /** The contents of a two-dimensional array, row by row. */
  function Rows<T>(m: array2<T>): (rows: seq<seq<T>>)
    reads m
    ensures |rows| == m.Length0
    ensures forall i :: 0 <= i < m.Length0 ==> |rows[i]| == m.Length1
    ensures forall i, j :: 0 <= i < m.Length0 && 0 <= j < m.Length1 ==> rows[i][j] == m[i, j]
  {
    seq(m.Length0, i requires 0 <= i < m.Length0 reads m =>
      seq(m.Length1, j requires 0 <= j < m.Length1 reads m => m[i, j]))
  }

  /** generate_matrices: a (row+1) x (col+1) score matrix of zeros and a
      direction matrix of the same shape whose cells are empty lists. */
  method GenerateMatrices(row: nat, col: nat) returns (score: array2<int>, dirs: array2<seq<int>>)
    ensures fresh(score) && fresh(dirs)
    ensures score.Length0 == row + 1 && score.Length1 == col + 1
    ensures dirs.Length0 == row + 1 && dirs.Length1 == col + 1
    ensures forall i, j :: 0 <= i <= row && 0 <= j <= col ==> score[i, j] == 0 && dirs[i, j] == []
  {
    score := new int[row + 1, col + 1]((i, j) => 0);
    dirs := new seq<int>[row + 1, col + 1]((i, j) => []);
  }

  /** sm and dm are the score and direction matrices of the recurrence, as
      values. The link to Score and Dirs fires only where a proof names a
      cell of the recurrence, which keeps the fill's heap reasoning small. */
  ghost predicate Tables(sm: seq<seq<int>>, dm: seq<seq<seq<int>>>, a: string, b: string, p: Scoring)
  {
    |sm| == |dm| == |a| + 1 &&
    (forall i :: 0 <= i <= |a| ==> |sm[i]| == |dm[i]| == |b| + 1) &&
    (forall i, j {:trigger Score(a, b, p, i, j)} :: 0 <= i <= |a| && 0 <= j <= |b| ==> sm[i][j] == Score(a, b, p, i, j)) &&
    (forall i, j {:trigger Dirs(a, b, p, i, j)} :: 0 <= i <= |a| && 0 <= j <= |b| ==> dm[i][j] == Dirs(a, b, p, i, j))
  }

  /** The value matrices exist. */
  lemma MakeTables(a: string, b: string, p: Scoring) returns (sm: seq<seq<int>>, dm: seq<seq<seq<int>>>)
    ensures Tables(sm, dm, a, b, p)
  {
    sm := ScoreMatrix(a, b, p);
    dm := DirMatrix(a, b, p);
  }

  /** The first row and column of the recurrence as fill_matrix writes them. */
  lemma BorderCells(sm: seq<seq<int>>, dm: seq<seq<seq<int>>>, a: string, b: string, p: Scoring)
    requires Tables(sm, dm, a, b, p)
    ensures sm[0][0] == 0 && dm[0][0] == [Origin]
    ensures forall j :: 1 <= j <= |b| ==> sm[0][j] == sm[0][j - 1] + p.gap && dm[0][j] == [Right]
    ensures forall i :: 1 <= i <= |a| ==> sm[i][0] == sm[i - 1][0] + p.gap && dm[i][0] == [Down]
  {
    assert Score(a, b, p, 0, 0) == 0 && Dirs(a, b, p, 0, 0) == [Origin];
    forall j | 1 <= j <= |b| ensures sm[0][j] == sm[0][j - 1] + p.gap && dm[0][j] == [Right] {
      assert Score(a, b, p, 0, j) == Score(a, b, p, 0, j - 1) + p.gap && Dirs(a, b, p, 0, j) == [Right];
    }
    forall i | 1 <= i <= |a| ensures sm[i][0] == sm[i - 1][0] + p.gap && dm[i][0] == [Down] {
      assert Score(a, b, p, i, 0) == Score(a, b, p, i - 1, 0) + p.gap && Dirs(a, b, p, i, 0) == [Down];
    }
  }

  /** An inner cell of the recurrence computed, as fill_matrix does, from the
      three neighbours' values: the maximum candidate and the ascending list
      of the candidates' positions that reach it. */
  lemma InnerCell(a: string, b: string, p: Scoring, i: nat, j: nat, diag: int, left: int, up: int, c: seq<int>)
    requires 1 <= i <= |a| && 1 <= j <= |b|
    requires diag == Score(a, b, p, i - 1, j - 1) && left == Score(a, b, p, i, j - 1) && up == Score(a, b, p, i - 1, j)
    requires c == [if a[i - 1] == b[j - 1] then diag + p.matchScore else diag + p.mismatch, left + p.gap, up + p.gap]
    ensures MaxOf(c) == Score(a, b, p, i, j)
    ensures Positions(c, MaxOf(c)) == Dirs(a, b, p, i, j)
  {
    assert c == Candidates(a, b, p, i, j);
  }

  /** The same cell read off the value matrices: from the neighbours' entries
      of sm, the maximum and its positions are the cell's entries of sm and dm. */
  lemma InnerTableCell(sm: seq<seq<int>>, dm: seq<seq<seq<int>>>, a: string, b: string, p: Scoring, i: nat, j: nat, c: seq<int>)
    requires Tables(sm, dm, a, b, p)
    requires 1 <= i <= |a| && 1 <= j <= |b|
    requires c == [if a[i - 1] == b[j - 1] then sm[i - 1][j - 1] + p.matchScore else sm[i - 1][j - 1] + p.mismatch,
                   sm[i][j - 1] + p.gap, sm[i - 1][j] + p.gap]
    ensures MaxOf(c) == sm[i][j]
    ensures Positions(c, MaxOf(c)) == dm[i][j]
  {
    assert sm[i - 1][j - 1] == Score(a, b, p, i - 1, j - 1) && sm[i][j - 1] == Score(a, b, p, i, j - 1) && sm[i - 1][j] == Score(a, b, p, i - 1, j);
    InnerCell(a, b, p, i, j, sm[i - 1][j - 1], sm[i][j - 1], sm[i - 1][j], c);
    assert sm[i][j] == Score(a, b, p, i, j) && dm[i][j] == Dirs(a, b, p, i, j);
  }

  /** The fill has reached cell (r, c) of the score matrix: the first row and
      column and every cell before (r, c) in row-major order hold their values. */
  ghost predicate ScoresUpTo(score: array2<int>, sm: seq<seq<int>>, r: nat, c: nat)
    requires |sm| == score.Length0
    requires forall i :: 0 <= i < |sm| ==> |sm[i]| == score.Length1
    reads score
  {
    forall i, j {:trigger score[i, j]} :: 0 <= i < score.Length0 && 0 <= j < score.Length1 && (i == 0 || j == 0 || i < r || (i == r && j < c)) ==>
      score[i, j] == sm[i][j]
  }

  /** The same progress for the direction matrix. */
  ghost predicate DirsUpTo(dirs: array2<seq<int>>, dm: seq<seq<seq<int>>>, r: nat, c: nat)
    requires |dm| == dirs.Length0
    requires forall i :: 0 <= i < |dm| ==> |dm[i]| == dirs.Length1
    reads dirs
  {
    forall i, j {:trigger dirs[i, j]} :: 0 <= i < dirs.Length0 && 0 <= j < dirs.Length1 && (i == 0 || j == 0 || i < r || (i == r && j < c)) ==>
      dirs[i, j] == dm[i][j]
  }

  /** One pass of fill_matrix's inner loop body: the score list of cell
      (row, col), its maximum and the positions that reach it. */
  method FillCell(score: array2<int>, dirs: array2<seq<int>>, a: string, b: string, p: Scoring, row: nat, col: nat, ghost sm: seq<seq<int>>, ghost dm: seq<seq<seq<int>>>)
    requires score.Length0 == |a| + 1 && score.Length1 == |b| + 1
    requires dirs.Length0 == |a| + 1 && dirs.Length1 == |b| + 1
    requires Tables(sm, dm, a, b, p)
    requires 1 <= row <= |a| && 1 <= col <= |b|
    requires ScoresUpTo(score, sm, row, col) && DirsUpTo(dirs, dm, row, col)
    modifies score, dirs
    ensures ScoresUpTo(score, sm, row, col + 1) && DirsUpTo(dirs, dm, row, col + 1)
    ensures forall i, j :: 0 <= i < score.Length0 && 0 <= j < score.Length1 && (i, j) != (row, col) ==>
      score[i, j] == old(score[i, j])
    ensures forall i, j :: 0 <= i < dirs.Length0 && 0 <= j < dirs.Length1 && (i, j) != (row, col) ==>
      dirs[i, j] == old(dirs[i, j])
  {
    var aBase := a[row - 1];
    var bBase := b[col - 1];
    var candidates := [
      if aBase == bBase then score[row - 1, col - 1] + p.matchScore else score[row - 1, col - 1] + p.mismatch,
      score[row, col - 1] + p.gap,
      score[row - 1, col] + p.gap
    ];
    InnerTableCell(sm, dm, a, b, p, row, col, candidates);
    score[row, col] := MaxOf(candidates);
    dirs[row, col] := Positions(candidates, score[row, col]);
    forall i, j | 0 <= i < score.Length0 && 0 <= j < score.Length1 && (i == 0 || j == 0 || i < row || (i == row && j < col + 1))
      ensures score[i, j] == sm[i][j]
    {
      if i != row || j != col {
        assert old(score[i, j]) == sm[i][j];
      }
    }
    forall i, j | 0 <= i < dirs.Length0 && 0 <= j < dirs.Length1 && (i == 0 || j == 0 || i < row || (i == row && j < col + 1))
      ensures dirs[i, j] == dm[i][j]
    {
      if i != row || j != col {
        assert old(dirs[i, j]) == dm[i][j];
      }
    }
  }

  /** fill_matrix: writes the first row, the first column, the origin marker and
      then every inner cell, row by row, into the two matrices. Afterwards every
      cell holds the recurrence's value and tied-direction list. The fill reads
      score[0, 0] without writing it, so it starts from the zero that
      generate_matrices put there. */
  method FillMatrix(score: array2<int>, dirs: array2<seq<int>>, a: string, b: string, p: Scoring)
    requires score.Length0 == |a| + 1 && score.Length1 == |b| + 1
    requires dirs.Length0 == |a| + 1 && dirs.Length1 == |b| + 1
    requires score[0, 0] == 0
    modifies score, dirs
    ensures forall i, j :: 0 <= i <= |a| && 0 <= j <= |b| ==> score[i, j] == Score(a, b, p, i, j)
    ensures forall i, j :: 0 <= i <= |a| && 0 <= j <= |b| ==> dirs[i, j] == Dirs(a, b, p, i, j)
  {
    ghost var sm, dm := MakeTables(a, b, p);
    BorderCells(sm, dm, a, b, p);
    var n, m := |a|, |b|;
    for col := 1 to m + 1
      invariant forall j :: 0 <= j < col ==> score[0, j] == sm[0][j]
      invariant forall j :: 1 <= j < col ==> dirs[0, j] == dm[0][j]
    {
      score[0, col] := score[0, col - 1] + p.gap;
      dirs[0, col] := [Right];
    }
    for row := 1 to n + 1
      invariant forall j :: 0 <= j <= m ==> score[0, j] == sm[0][j]
      invariant forall j :: 1 <= j <= m ==> dirs[0, j] == dm[0][j]
      invariant forall i :: 1 <= i < row ==> score[i, 0] == sm[i][0]
      invariant forall i :: 1 <= i < row ==> dirs[i, 0] == dm[i][0]
    {
      score[row, 0] := score[row - 1, 0] + p.gap;
      dirs[row, 0] := [Down];
    }
    dirs[0, 0] := [Origin];
    for row := 1 to n + 1
      invariant ScoresUpTo(score, sm, row, 0) && DirsUpTo(dirs, dm, row, 0)
    {
      for col := 1 to m + 1
        invariant ScoresUpTo(score, sm, row, col) && DirsUpTo(dirs, dm, row, col)
      {
        FillCell(score, dirs, a, b, p, row, col, sm, dm);
      }
    }
    forall i, j | 0 <= i <= |a| && 0 <= j <= |b|
      ensures score[i, j] == Score(a, b, p, i, j) && dirs[i, j] == Dirs(a, b, p, i, j)
    {
      assert score[i, j] == sm[i][j] && dirs[i, j] == dm[i][j];
    }
  }
}

/** magnumopus/nw.py, the earlier draft of the aligner: a single score matrix
    filled in place with a hard-coded +1 match, -1 mismatch and -1 gap. The
    match, mismatch and gap arguments are accepted but never read, and
    nothing is returned. */
module NwDraft {
  import opened Alignments
  import opened NwScoring

  /** The value the draft fill leaves in matrix[i][j] when the origin cell holds
      base: one less than the left neighbour along the first row, one less than
      the upper neighbour down the first column, and elsewhere the best of
      the upper neighbour - 1, the left neighbour - 1 and the diagonal neighbour
      +1 or -1. */
  function DraftScore(a: string, b: string, base: int, i: nat, j: nat): int
    requires i <= |a| && j <= |b|
    decreases i + j, 1
  {
    if i == 0 && j == 0 then base
    else if i == 0 then DraftScore(a, b, base, 0, j - 1) - 1
    else if j == 0 then DraftScore(a, b, base, i - 1, 0) - 1
    else MaxOf(DraftMoves(a, b, base, i, j))
  }

  /** The three values the draft compares at an inner cell, in its order: from
      above, from the left, diagonal. */
  function DraftMoves(a: string, b: string, base: int, i: nat, j: nat): seq<int>
    requires 1 <= i <= |a| && 1 <= j <= |b|
    decreases i + j, 0
  {
    [ DraftScore(a, b, base, i - 1, j) - 1,
      DraftScore(a, b, base, i, j - 1) - 1,
      DraftScore(a, b, base, i - 1, j - 1) + (if a[i - 1] == b[j - 1] then 1 else -1) ]
  }

  /** generate_matrix: a (row+1) x (col+1) matrix of zeros. */
  method GenerateMatrix(row: nat, col: nat) returns (mat: array2<int>)
    ensures fresh(mat)
    ensures mat.Length0 == row + 1 && mat.Length1 == col + 1
    ensures forall i, j :: 0 <= i <= row && 0 <= j <= col ==> mat[i, j] == 0
  {
    mat := new int[row + 1, col + 1]((i, j) => 0);
  }

  /** ds holds DraftScore for every cell; the link fires only where a proof
      names DraftScore at a cell. */
  ghost predicate DraftTable(ds: seq<seq<int>>, a: string, b: string, base: int)
  {
    |ds| == |a| + 1 &&
    (forall i :: 0 <= i <= |a| ==> |ds[i]| == |b| + 1) &&
    (forall i, j {:trigger DraftScore(a, b, base, i, j)} :: 0 <= i <= |a| && 0 <= j <= |b| ==> ds[i][j] == DraftScore(a, b, base, i, j))
  }

  lemma MakeDraftTable(a: string, b: string, base: int) returns (ds: seq<seq<int>>)
    ensures DraftTable(ds, a, b, base)
  {
    ds := seq(|a| + 1, i requires 0 <= i <= |a| =>
      seq(|b| + 1, j requires 0 <= j <= |b| => DraftScore(a, b, base, i, j)));
  }

  /** The borders of the draft matrix: base at the origin, then one less per step. */
  lemma DraftBorder(ds: seq<seq<int>>, a: string, b: string, base: int)
    requires DraftTable(ds, a, b, base)
    ensures ds[0][0] == base
    ensures forall j :: 1 <= j <= |b| ==> ds[0][j] == ds[0][j - 1] - 1
    ensures forall i :: 1 <= i <= |a| ==> ds[i][0] == ds[i - 1][0] - 1
  {
    assert DraftScore(a, b, base, 0, 0) == base;
    forall j | 1 <= j <= |b| ensures ds[0][j] == ds[0][j - 1] - 1 {
      assert DraftScore(a, b, base, 0, j) == DraftScore(a, b, base, 0, j - 1) - 1;
    }
    forall i | 1 <= i <= |a| ensures ds[i][0] == ds[i - 1][0] - 1 {
      assert DraftScore(a, b, base, i, 0) == DraftScore(a, b, base, i - 1, 0) - 1;
    }
  }

  /** An inner cell of the draft from its three neighbours' values. */
  lemma DraftInner(ds: seq<seq<int>>, a: string, b: string, base: int, i: nat, j: nat, c: seq<int>)
    requires DraftTable(ds, a, b, base) && 1 <= i <= |a| && 1 <= j <= |b|
    requires c == [ds[i - 1][j] - 1, ds[i][j - 1] - 1,
                   if a[i - 1] == b[j - 1] then ds[i - 1][j - 1] + 1 else ds[i - 1][j - 1] - 1]
    ensures MaxOf(c) == ds[i][j]
  {
    assert ds[i - 1][j - 1] == DraftScore(a, b, base, i - 1, j - 1) && ds[i][j - 1] == DraftScore(a, b, base, i, j - 1) && ds[i - 1][j] == DraftScore(a, b, base, i - 1, j);
    DraftMovesMax(a, b, base, i, j, c);
    assert ds[i][j] == DraftScore(a, b, base, i, j);
  }

  /** The best of the three moves built from the neighbours' values is the cell's value. */
  lemma DraftMovesMax(a: string, b: string, base: int, i: nat, j: nat, c: seq<int>)
    requires 1 <= i <= |a| && 1 <= j <= |b|
    requires c == [DraftScore(a, b, base, i - 1, j) - 1, DraftScore(a, b, base, i, j - 1) - 1,
                   if a[i - 1] == b[j - 1] then DraftScore(a, b, base, i - 1, j - 1) + 1 else DraftScore(a, b, base, i - 1, j - 1) - 1]
    ensures MaxOf(c) == DraftScore(a, b, base, i, j)
  {
    assert c == DraftMoves(a, b, base, i, j);
  }

  /** The draft fill has reached cell (r, c): borders and every earlier cell in
      row-major order hold their values. */
  ghost predicate DraftUpTo(matrix: array2<int>, ds: seq<seq<int>>, r: nat, c: nat)
    requires |ds| == matrix.Length0
    requires forall i :: 0 <= i < |ds| ==> |ds[i]| == matrix.Length1
    reads matrix
  {
    forall i, j {:trigger matrix[i, j]} :: 0 <= i < matrix.Length0 && 0 <= j < matrix.Length1 && (i == 0 || j == 0 || i < r || (i == r && j < c)) ==>
      matrix[i, j] == ds[i][j]
  }

  /** One pass of the draft's inner loop: the best of the three moves. */
  method DraftCell(matrix: array2<int>, a: string, b: string, row: nat, col: nat, aBase: char,
                   ghost base: int, ghost ds: seq<seq<int>>)
    requires matrix.Length0 == |a| + 1 && matrix.Length1 == |b| + 1
    requires DraftTable(ds, a, b, base)
    requires 1 <= row <= |a| && 1 <= col <= |b| && aBase == a[row - 1]
    requires DraftUpTo(matrix, ds, row, col)
    modifies matrix
    ensures DraftUpTo(matrix, ds, row, col + 1)
    ensures forall i, j :: 0 <= i < matrix.Length0 && 0 <= j < matrix.Length1 && (i, j) != (row, col) ==>
      matrix[i, j] == old(matrix[i, j])
  {
    var bBase := b[col - 1];
    var moves := [
      matrix[row - 1, col] - 1,
      matrix[row, col - 1] - 1,
      if aBase == bBase then matrix[row - 1, col - 1] + 1 else matrix[row - 1, col - 1] - 1
    ];
    DraftInner(ds, a, b, base, row, col, moves);
    matrix[row, col] := MaxOf(moves);
    forall i, j | 0 <= i < matrix.Length0 && 0 <= j < matrix.Length1 && (i == 0 || j == 0 || i < row || (i == row && j < col + 1))
      ensures matrix[i, j] == ds[i][j]
    {
      if i != row || j != col {
        assert old(matrix[i, j]) == ds[i][j];
      }
    }
  }

  /** fill_matrix of the draft: the first row, the first column, then every
      inner cell row by row, in place. The origin cell is read but never
      written, so every value is measured from what it held. */
  method FillDraftMatrix(matrix: array2<int>, a: string, b: string, matchScore: int, mismatch: int, gap: int)
    requires matrix.Length0 == |a| + 1 && matrix.Length1 == |b| + 1
    modifies matrix
    ensures forall i, j :: 0 <= i <= |a| && 0 <= j <= |b| ==> matrix[i, j] == DraftScore(a, b, old(matrix[0, 0]), i, j)
  {
    ghost var base := matrix[0, 0];
    ghost var ds := MakeDraftTable(a, b, base);
    DraftBorder(ds, a, b, base);
    for col := 1 to |b| + 1
      invariant forall j :: 0 <= j < col ==> matrix[0, j] == ds[0][j]
    {
      matrix[0, col] := matrix[0, col - 1] - 1;
    }
    for row := 1 to |a| + 1
      invariant forall j :: 0 <= j <= |b| ==> matrix[0, j] == ds[0][j]
      invariant forall i :: 1 <= i < row ==> matrix[i, 0] == ds[i][0]
    {
      matrix[row, 0] := matrix[row - 1, 0] - 1;
    }
    for row := 1 to |a| + 1
      invariant DraftUpTo(matrix, ds, row, 0)
    {
      var aBase := a[row - 1];
      for col := 1 to |b| + 1
        invariant DraftUpTo(matrix, ds, row, col)
      {
        DraftCell(matrix, a, b, row, col, aBase, base, ds);
      }
    }
    forall i, j | 0 <= i <= |a| && 0 <= j <= |b|
      ensures matrix[i, j] == DraftScore(a, b, base, i, j)
    {
      assert matrix[i, j] == ds[i][j];
    }
  }

  /** needleman_wunsch of the draft: allocate and fill a matrix, return nothing. */
  method DraftNeedlemanWunsch(a: string, b: string, matchScore: int, mismatch: int, gap: int)
  {
    var matrix := GenerateMatrix(|a|, |b|);
    FillDraftMatrix(matrix, a, b, matchScore, mismatch, gap);
  }

  /** Lists holding the same values have the same maximum. */
  lemma MaxOfSameValues(c: seq<int>, c': seq<int>)
    requires |c| > 0 && |c'| > 0
    requires forall x :: x in c <==> x in c'
    ensures MaxOf(c) == MaxOf(c')
  {
    assert MaxOf(c) in c';
    assert MaxOf(c') in c;
  }

  /** Three values listed in the opposite order have the same maximum. */
  lemma MaxOfReverse3(c: seq<int>, c': seq<int>)
    requires |c| == 3 && c' == [c[2], c[1], c[0]]
    ensures MaxOf(c) == MaxOf(c')
  {
    MaxOfSameValues(c, c');
  }

  /** Adding the same amount to every element adds it to the maximum. */
  lemma MaxOfShifted(c: seq<int>, c': seq<int>, d: int)
    requires |c| == |c'| > 0
    requires forall k :: 0 <= k < |c| ==> c[k] == c'[k] + d
    ensures MaxOf(c) == MaxOf(c') + d
  {
    var m, m' := MaxOf(c), MaxOf(c');
    var u :| 0 <= u < |c| && c[u] == m;
    var w :| 0 <= w < |c'| && c'[w] == m';
    assert c'[u] in c' && c[w] in c;
  }

  /** Every cell of the draft matrix is its origin value plus the value it
      takes from a zero origin. */
  lemma {:induction false} DraftShift(a: string, b: string, base: int, i: nat, j: nat)
    requires i <= |a| && j <= |b|
    ensures DraftScore(a, b, base, i, j) == base + DraftScore(a, b, 0, i, j)
    decreases i + j
  {
    if i == 0 && j == 0 {
    } else if i == 0 {
      DraftShift(a, b, base, 0, j - 1);
    } else if j == 0 {
      DraftShift(a, b, base, i - 1, 0);
    } else {
      var c, c' := DraftMoves(a, b, base, i, j), DraftMoves(a, b, 0, i, j);
      assert c[0] == c'[0] + base by { DraftShift(a, b, base, i - 1, j); }
      assert c[1] == c'[1] + base by { DraftShift(a, b, base, i, j - 1); }
      assert c[2] == c'[2] + base by { DraftShift(a, b, base, i - 1, j - 1); }
      MaxOfShifted(c, c', base);
    }
  }

  /** From a zero origin the draft computes the score matrix of the main
      aligner called with match 1, mismatch -1 and gap -1. */
  lemma {:induction false} DraftIsUnitScore(a: string, b: string, i: nat, j: nat)
    requires i <= |a| && j <= |b|
    ensures DraftScore(a, b, 0, i, j) == Score(a, b, Scoring(1, -1, -1), i, j)
    decreases i + j
  {
    var p := Scoring(1, -1, -1);
    if i == 0 && j == 0 {
    } else if i == 0 {
      DraftIsUnitScore(a, b, 0, j - 1);
    } else if j == 0 {
      DraftIsUnitScore(a, b, i - 1, 0);
    } else {
      var c, c' := DraftMoves(a, b, 0, i, j), Candidates(a, b, p, i, j);
      assert c'[0] == c[2] by { DraftIsUnitScore(a, b, i - 1, j - 1); }
      assert c'[1] == c[1] by { DraftIsUnitScore(a, b, i, j - 1); }
      assert c'[2] == c[0] by { DraftIsUnitScore(a, b, i - 1, j); }
      MaxOfReverse3(c, c');
    }
  }

  /** The draft's example call: ATA against ATCA with match 1, mismatch -1 and
      gap -1 has optimal score 2 (AT-A over ATCA), in the draft and in the
      main aligner alike. */
  lemma AtaAgainstAtca(a: string, b: string, p: Scoring)
    requires a == "ATA" && b == "ATCA" && p == Scoring(1, -1, -1)
    ensures Score(a, b, p, 3, 4) == 2
    ensures DraftScore(a, b, 0, 3, 4) == 2
  {
    assert AtaAtca(a, b, p);
    AtaThirdRow(a, b, p);
    CellValue(a, b, p, 3, 4, 2);
    assert DraftScore(a, b, 0, 3, 4) == 2 by { DraftIsUnitScore(a, b, 3, 4); }
  }

  /** An inner cell of the score matrix holds m when m is the best of the
      three values its neighbours offer. */
  lemma CellValue(a: string, b: string, p: Scoring, i: nat, j: nat, m: int)
    requires 1 <= i <= |a| && 1 <= j <= |b|
    requires Score(a, b, p, i - 1, j - 1) + Substitution(p, a[i - 1], b[j - 1]) <= m
    requires Score(a, b, p, i, j - 1) + p.gap <= m && Score(a, b, p, i - 1, j) + p.gap <= m
    requires Score(a, b, p, i - 1, j - 1) + Substitution(p, a[i - 1], b[j - 1]) == m ||
             Score(a, b, p, i, j - 1) + p.gap == m || Score(a, b, p, i - 1, j) + p.gap == m
    ensures Score(a, b, p, i, j) == m
  {
    var c := Candidates(a, b, p, i, j);
    assert c[0] in c && c[1] in c && c[2] in c;
  }

  /** The example's inputs, symbol by symbol. */
  predicate AtaAtca(a: string, b: string, p: Scoring)
  {
    |a| == 3 && a[0] == 'A' && a[1] == 'T' && a[2] == 'A' &&
    |b| == 4 && b[0] == 'A' && b[1] == 'T' && b[2] == 'C' && b[3] == 'A' &&
    p == Scoring(1, -1, -1)
  }

  /** The border and the first inner row of the example's score matrix. */
  lemma AtaFirstRow(a: string, b: string, p: Scoring)
    requires AtaAtca(a, b, p)
    ensures Score(a, b, p, 1, 0) == -1 && Score(a, b, p, 2, 0) == -2 && Score(a, b, p, 3, 0) == -3
    ensures Score(a, b, p, 1, 1) == 1 && Score(a, b, p, 1, 2) == 0
    ensures Score(a, b, p, 1, 3) == -1 && Score(a, b, p, 1, 4) == -2
  {
    assert Score(a, b, p, 0, 1) == -1 && Score(a, b, p, 1, 0) == -1;
    assert Score(a, b, p, 0, 2) == -2 && Score(a, b, p, 2, 0) == -2;
    assert Score(a, b, p, 0, 3) == -3 && Score(a, b, p, 3, 0) == -3;
    assert Score(a, b, p, 0, 4) == -4;
    CellValue(a, b, p, 1, 1, 1);
    CellValue(a, b, p, 1, 2, 0);
    CellValue(a, b, p, 1, 3, -1);
    CellValue(a, b, p, 1, 4, -2);
  }

  lemma AtaSecondRow(a: string, b: string, p: Scoring)
    requires AtaAtca(a, b, p)
    ensures Score(a, b, p, 2, 0) == -2 && Score(a, b, p, 3, 0) == -3
    ensures Score(a, b, p, 2, 1) == 0 && Score(a, b, p, 2, 2) == 2
    ensures Score(a, b, p, 2, 3) == 1 && Score(a, b, p, 2, 4) == 0
  {
    AtaFirstRow(a, b, p);
    CellValue(a, b, p, 2, 1, 0);
    CellValue(a, b, p, 2, 2, 2);
    CellValue(a, b, p, 2, 3, 1);
    CellValue(a, b, p, 2, 4, 0);
  }

  lemma AtaThirdRow(a: string, b: string, p: Scoring)
    requires AtaAtca(a, b, p)
    ensures Score(a, b, p, 2, 3) == 1 && Score(a, b, p, 2, 4) == 0
    ensures Score(a, b, p, 3, 3) == 1
  {
    AtaSecondRow(a, b, p);
    CellValue(a, b, p, 3, 1, -1);
    CellValue(a, b, p, 3, 2, 1);
    CellValue(a, b, p, 3, 3, 1);
  }
}

/** Gapped pairwise alignments: what it means for two gapped strings to align two
    sequences, and the column-by-column score of such an alignment. */
module Alignments {

  /** The three scores the aligner is called with; any integers are accepted. */
  datatype Scoring = Scoring(matchScore: int, mismatch: int, gap: int)

  /** The symbol written into an aligned string opposite a symbol of the other sequence. */
  const Gap: char := '-'

  /** Score of placing symbol x against symbol y when neither is a gap. */
  function Substitution(p: Scoring, x: char, y: char): int
  {
    if x == y then p.matchScore else p.mismatch
  }

  /** Score of one alignment column. */
  function ColumnScore(p: Scoring, x: char, y: char): int
  {
    if x == Gap || y == Gap then p.gap else Substitution(p, x, y)
  }

  /** The slice s[::-1]. */
  function Reverse(s: string): (r: string)
    ensures |r| == |s|
    ensures forall k :: 0 <= k < |s| ==> r[k] == s[|s| - 1 - k]
  {
    if s == [] then [] else [s[|s| - 1]] + Reverse(s[..|s| - 1])
  }

  lemma ReverseSnoc(s: string, c: char)
    ensures Reverse(s + [c]) == [c] + Reverse(s)
  {
    var l, r := Reverse(s + [c]), [c] + Reverse(s);
    assert |l| == |r|;
    forall k | 0 <= k < |l| ensures l[k] == r[k] {
      if k > 0 {
        assert (s + [c])[|s| - k] == s[|s| - k];
      }
    }
  }

  /** Deletes every gap symbol, keeping the other symbols in order. */
  function Ungap(s: string): (r: string)
    ensures |r| <= |s|
    ensures Gap !in r
  {
    if s == [] then [] else Ungap(s[..|s| - 1]) + (if s[|s| - 1] == Gap then [] else [s[|s| - 1]])
  }

  lemma UngapSnoc(s: string, c: char)
    ensures Ungap(s + [c]) == Ungap(s) + (if c == Gap then [] else [c])
  {
    assert (s + [c])[..|s|] == s;
  }

  /** A prefix one symbol longer. */
  lemma PrefixSnoc(a: string, i: nat)
    requires 1 <= i <= |a|
    ensures a[..i] == a[..i - 1] + [a[i - 1]]
  {
  }

  /** No column holds a gap on both sides. */
  predicate NoEmptyColumn(s: string, t: string)
  {
    forall k :: 0 <= k < |s| && k < |t| ==> s[k] != Gap || t[k] != Gap
  }

  /** (s, t) is a global alignment of a against b. */
  predicate IsAlignment(s: string, t: string, a: string, b: string)
  {
    |s| == |t| && NoEmptyColumn(s, t) && Ungap(s) == a && Ungap(t) == b
  }

  /** Sum of the column scores of an alignment. */
  function AlignmentScore(p: Scoring, s: string, t: string): int
    requires |s| == |t|
  {
    if s == [] then 0
    else AlignmentScore(p, s[..|s| - 1], t[..|t| - 1]) + ColumnScore(p, s[|s| - 1], t[|t| - 1])
  }

  /** Appending a column that is not all gaps to an alignment: no empty column
      appears, each side keeps its symbols plus the new one, and the score
      grows by the column's score. */
  lemma SnocColumn(p: Scoring, s: string, t: string, x: char, y: char)
    requires |s| == |t| && NoEmptyColumn(s, t) && (x != Gap || y != Gap)
    ensures NoEmptyColumn(s + [x], t + [y])
    ensures Ungap(s + [x]) == Ungap(s) + (if x == Gap then [] else [x])
    ensures Ungap(t + [y]) == Ungap(t) + (if y == Gap then [] else [y])
    ensures AlignmentScore(p, s + [x], t + [y]) == AlignmentScore(p, s, t) + ColumnScore(p, x, y)
  {
    UngapSnoc(s, x);
    UngapSnoc(t, y);
    assert (s + [x])[..|s|] == s && (t + [y])[..|t|] == t;
    forall k | 0 <= k < |s| + 1 ensures (s + [x])[k] != Gap || (t + [y])[k] != Gap {
      if k < |s| {
        assert (s + [x])[k] == s[k] && (t + [y])[k] == t[k];
      }
    }
  }

  /** Every column of an alignment holds at least one symbol of the inputs. */
  lemma {:induction false} UngapCoversColumns(s: string, t: string)
    requires |s| == |t| && NoEmptyColumn(s, t)
    ensures |s| <= |Ungap(s)| + |Ungap(t)|
    decreases |s|
  {
    if s != [] {
      var s', t' := s[..|s| - 1], t[..|t| - 1];
      assert NoEmptyColumn(s', t') by {
        forall k | 0 <= k < |s'| && k < |t'| ensures s'[k] != Gap || t'[k] != Gap {
          assert s'[k] == s[k] && t'[k] == t[k];
        }
      }
      UngapCoversColumns(s', t');
      assert s[|s| - 1] != Gap || t[|t| - 1] != Gap;
    }
  }

  /** An alignment of a against b is at least as long as either input and no
      longer than both together. */
  lemma AlignmentLength(s: string, t: string, a: string, b: string)
    requires IsAlignment(s, t, a, b)
    ensures |s| == |t|
    ensures |a| <= |s| && |b| <= |s| && |s| <= |a| + |b|
  {
    UngapCoversColumns(s, t);
  }
}

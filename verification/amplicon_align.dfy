/** The alignment step of amplicon_align.py: the reverse complement of an
    amplicon, and the choice among the four strand orientations of the
    best-scoring [score, alignments] entry by Python's max and list.index. */
module AmpliconAlign {
  import opened Alignments
  import opened NwScoring
  import opened NwBacktrack
  import opened NwAllAlignments

  datatype Option<T> = None | Some(value: T)

  /** The four keys of complement_dict. */
  predicate IsBase(c: char)
  {
    c == 'A' || c == 'C' || c == 'G' || c == 'T'
  }

  predicate AllBases(s: string)
  {
    forall k :: 0 <= k < |s| ==> IsBase(s[k])
  }

  /** complement_dict.get(base): A and T swap, G and C swap, and every other
      character, lower-case letters and N included, has no entry. */
  function Complement(c: char): (r: Option<char>)
    ensures r.Some? <==> IsBase(c)
    ensures r.Some? ==> IsBase(r.value)
  {
    if c == 'A' then Some('T')
    else if c == 'G' then Some('C')
    else if c == 'T' then Some('A')
    else if c == 'C' then Some('G')
    else None
  }

  /** Complementing twice gives the character back. */
  lemma ComplementInvolution(x: char, y: char, z: char)
    requires Complement(x) == Some(y) && Complement(y) == Some(z)
    ensures z == x
  {
  }

  /** "".join(complement_dict.get(base) for base in t): the complements of t's
      characters in order; the join fails, here None, as soon as one of them
      has no entry. */
  function JoinComplements(t: string): (r: Option<string>)
    ensures r.Some? <==> AllBases(t)
    ensures r.Some? ==> |r.value| == |t| && forall k :: 0 <= k < |t| ==> Complement(t[k]) == Some(r.value[k])
  {
    if t == [] then Some("")
    else
      var rest := JoinComplements(t[1..]);
      assert AllBases(t) <==> IsBase(t[0]) && AllBases(t[1..]) by {
        assert forall k :: 1 <= k < |t| ==> t[k] == t[1..][k - 1];
      }
      if Complement(t[0]).Some? && rest.Some? then Some([Complement(t[0]).value] + rest.value) else None
  }

  /** reverse_complement: the complements of the characters of s read from the
      last to the first; None when s holds a character outside A, C, G, T. */
  function ReverseComplement(s: string): (r: Option<string>)
    ensures r.Some? <==> AllBases(s)
    ensures r.Some? ==> |r.value| == |s| && AllBases(r.value)
    ensures r.Some? ==> forall k :: 0 <= k < |s| ==> Complement(s[|s| - 1 - k]) == Some(r.value[k])
  {
    var rev := Reverse(s);
    assert AllBases(rev) <==> AllBases(s) by {
      assert forall k :: 0 <= k < |s| ==> s[k] == rev[|s| - 1 - k];
    }
    JoinComplements(rev)
  }

  /** The reverse complement of a reverse complement is the original string. */
  lemma ReverseComplementInvolution(s: string)
    requires AllBases(s)
    ensures ReverseComplement(s).Some?
    ensures ReverseComplement(ReverseComplement(s).value) == Some(s)
  {
    var r := ReverseComplement(s).value;
    var rr := ReverseComplement(r).value;
    forall k | 0 <= k < |s| ensures rr[k] == s[k] {
      var k' := |s| - 1 - k;
      assert Complement(s[|s| - 1 - k']) == Some(r[k']);
      ComplementInvolution(s[k], r[k'], rr[k]);
    }
    assert rr == s;
  }

  /** Python's ordering of two sequences (str, tuple and list alike): the first
      position where they hold different elements decides, by less; when one
      is a prefix of the other, the shorter is smaller. */
  predicate LexLess<T(==)>(x: seq<T>, y: seq<T>, less: (T, T) -> bool)
    decreases |x|
  {
    if x == [] then y != []
    else if y == [] then false
    else if x[0] == y[0] then LexLess(x[1..], y[1..], less)
    else less(x[0], y[0])
  }

  /** less is irreflexive, transitive and total on distinct elements. */
  ghost predicate StrictTotalOrder<T(!new)>(less: (T, T) -> bool)
  {
    (forall u :: !less(u, u)) &&
    (forall u, v, w :: less(u, v) && less(v, w) ==> less(u, w)) &&
    (forall u, v :: u != v ==> less(u, v) || less(v, u))
  }

  lemma {:induction false} LexIrreflexive<T>(x: seq<T>, less: (T, T) -> bool)
    ensures !LexLess(x, x, less)
    decreases |x|
  {
    if x != [] {
      LexIrreflexive(x[1..], less);
    }
  }

  lemma {:induction false} LexTransitive<T(!new)>(x: seq<T>, y: seq<T>, z: seq<T>, less: (T, T) -> bool)
    requires StrictTotalOrder(less) && LexLess(x, y, less) && LexLess(y, z, less)
    ensures LexLess(x, z, less)
    decreases |x|
  {
    if x != [] && y != [] && z != [] && x[0] == y[0] && y[0] == z[0] {
      LexTransitive(x[1..], y[1..], z[1..], less);
    }
  }

  lemma {:induction false} LexTotal<T(!new)>(x: seq<T>, y: seq<T>, less: (T, T) -> bool)
    requires StrictTotalOrder(less) && x != y
    ensures LexLess(x, y, less) || LexLess(y, x, less)
    decreases |x|
  {
    if x != [] && y != [] && x[0] == y[0] {
      assert x == [x[0]] + x[1..] && y == [y[0]] + y[1..];
      LexTotal(x[1..], y[1..], less);
    }
  }

  function CharLess(c: char, d: char): bool
  {
    c < d
  }

  /** Python's < on two strings. */
  predicate StrLess(x: string, y: string)
  {
    LexLess(x, y, CharLess)
  }

  /** Python's < on two (aligned_a, aligned_b) tuples. */
  predicate PairLess(u: Pair, v: Pair)
  {
    if u.0 != v.0 then StrLess(u.0, v.0) else StrLess(u.1, v.1)
  }

  lemma StrLessIsOrder()
    ensures forall x, y, z :: StrLess(x, y) && StrLess(y, z) ==> StrLess(x, z)
    ensures forall x :: !StrLess(x, x)
    ensures forall x, y :: x != y ==> StrLess(x, y) || StrLess(y, x)
  {
    assert StrictTotalOrder(CharLess);
    forall x, y, z | StrLess(x, y) && StrLess(y, z) ensures StrLess(x, z) {
      LexTransitive(x, y, z, CharLess);
    }
    forall x ensures !StrLess(x, x) {
      LexIrreflexive(x, CharLess);
    }
    forall x, y | x != y ensures StrLess(x, y) || StrLess(y, x) {
      LexTotal(x, y, CharLess);
    }
  }

  lemma PairLessIsOrder()
    ensures StrictTotalOrder(PairLess)
  {
    StrLessIsOrder();
  }

  /** One [score, alignments] entry of the list the script ranks. */
  datatype Outcome = Outcome(score: int, alns: seq<Pair>)

  /** Python's < on two [score, alignments] lists: the scores decide, and equal
      scores are decided by the alignment lists. */
  predicate OutcomeLess(e: Outcome, f: Outcome)
  {
    if e.score != f.score then e.score < f.score else LexLess(e.alns, f.alns, PairLess)
  }

  lemma OutcomeLessIsOrder()
    ensures StrictTotalOrder(OutcomeLess)
  {
    PairLessIsOrder();
    forall e, f, g | OutcomeLess(e, f) && OutcomeLess(f, g) ensures OutcomeLess(e, g) {
      if e.score == f.score == g.score {
        LexTransitive(e.alns, f.alns, g.alns, PairLess);
      }
    }
    forall e ensures !OutcomeLess(e, e) {
      LexIrreflexive(e.alns, PairLess);
    }
    forall e, f | e != f ensures OutcomeLess(e, f) || OutcomeLess(f, e) {
      if e.score == f.score {
        LexTotal(e.alns, f.alns, PairLess);
      }
    }
  }

  /** Python's max over a non-empty list: start from the first entry and move
      to a later one only when it compares greater. */
  function PyMax(xs: seq<Outcome>): (m: Outcome)
    requires |xs| > 0
    ensures m in xs
  {
    if |xs| == 1 then xs[0]
    else
      var m := PyMax(xs[..|xs| - 1]);
      assert m in xs[..|xs| - 1];
      if OutcomeLess(m, xs[|xs| - 1]) then xs[|xs| - 1] else m
  }

  /** The entry max returns is greater than every other entry of the list. */
  lemma {:induction false} PyMaxIsGreatest(xs: seq<Outcome>)
    requires |xs| > 0
    ensures forall x :: x in xs ==> x == PyMax(xs) || OutcomeLess(x, PyMax(xs))
  {
    OutcomeLessIsOrder();
    if |xs| > 1 {
      var init := xs[..|xs| - 1];
      PyMaxIsGreatest(init);
      assert xs == init + [xs[|xs| - 1]];
    }
  }

  /** list.index(v): the first position holding v. */
  function IndexOf(xs: seq<Outcome>, v: Outcome): (i: nat)
    requires v in xs
    ensures i < |xs| && xs[i] == v
    ensures forall j :: 0 <= j < i ==> xs[j] != v
  {
    if xs[0] == v then 0 else 1 + IndexOf(xs[1..], v)
  }

  /** max_score.index(max(max_score)): the position of the chosen entry. */
  function SelectOrientation(xs: seq<Outcome>): (i: nat)
    requires |xs| > 0
    ensures i < |xs|
  {
    IndexOf(xs, PyMax(xs))
  }

  /** The chosen entry has the top score; among entries with that score its
      alignment list is the greatest, and no earlier entry equals it. */
  lemma SelectedIsBest(xs: seq<Outcome>)
    requires |xs| > 0
    ensures forall j :: 0 <= j < |xs| ==> xs[j].score <= xs[SelectOrientation(xs)].score
    ensures forall j :: 0 <= j < |xs| && xs[j].score == xs[SelectOrientation(xs)].score ==>
      xs[j].alns == xs[SelectOrientation(xs)].alns || LexLess(xs[j].alns, xs[SelectOrientation(xs)].alns, PairLess)
    ensures forall j :: 0 <= j < SelectOrientation(xs) ==> xs[j] != xs[SelectOrientation(xs)]
  {
    PyMaxIsGreatest(xs);
    var i := SelectOrientation(xs);
    forall j | 0 <= j < |xs| ensures xs[j] == xs[i] || OutcomeLess(xs[j], xs[i]) {
      assert xs[j] in xs;
    }
  }

  /** Between two entries with equal scores the one whose alignment list
      compares lower is never chosen, wherever the two stand in the list. */
  lemma TieGoesToGreaterAlignments(xs: seq<Outcome>, i: nat, j: nat)
    requires i < |xs| && j < |xs|
    requires xs[i].score == xs[j].score && LexLess(xs[i].alns, xs[j].alns, PairLess)
    ensures SelectOrientation(xs) != i
  {
    OutcomeLessIsOrder();
    PyMaxIsGreatest(xs);
    var m := PyMax(xs);
    assert xs[j] in xs;
    assert OutcomeLess(xs[i], xs[j]);
    assert xs[j] == m || OutcomeLess(xs[j], m);
    assert OutcomeLess(xs[i], m);
  }

  /** Equal entries go to the first of them. */
  lemma EqualEntriesGoFirst(e: Outcome)
    ensures SelectOrientation([e, e, e, e]) == 0
  {
  }

  /** The four entries lines 104-108 build, in their order: the amplicons as
      given, the first reverse-complemented, the second reverse-complemented,
      and both; None when a reverse complement fails. */
  function Orientations(a: string, b: string, p: Scoring): (r: Option<seq<Outcome>>)
    ensures r.Some? <==> AllBases(a) && AllBases(b)
    ensures r.Some? ==> |r.value| == 4
  {
    var ra, rb := ReverseComplement(a), ReverseComplement(b);
    if ra.None? || rb.None? then None
    else Some([ Outcome(Score(a, b, p, |a|, |b|), Yielded(a, b, p)),
                Outcome(Score(ra.value, b, p, |ra.value|, |b|), Yielded(ra.value, b, p)),
                Outcome(Score(a, rb.value, p, |a|, |rb.value|), Yielded(a, rb.value, p)),
                Outcome(Score(ra.value, rb.value, p, |ra.value|, |rb.value|), Yielded(ra.value, rb.value, p)) ])
  }

  /** Lines 104-109: align the four orientations and keep the entry
      max_score.index(max(max_score)) points at. */
  method AlignAmplicons(amplicon1: string, amplicon2: string, p: Scoring) returns (chosen: Option<Outcome>)
    ensures chosen.Some? <==> AllBases(amplicon1) && AllBases(amplicon2)
    ensures chosen.Some? ==> chosen.value == Orientations(amplicon1, amplicon2, p).value[SelectOrientation(Orientations(amplicon1, amplicon2, p).value)]
  {
    var aln1, score1 := NeedlemanWunsch(amplicon1, amplicon2, p);
    var rc1 := ReverseComplement(amplicon1);
    if rc1.None? {
      return None;
    }
    var aln2, score2 := NeedlemanWunsch(rc1.value, amplicon2, p);
    var rc2 := ReverseComplement(amplicon2);
    if rc2.None? {
      return None;
    }
    var aln3, score3 := NeedlemanWunsch(amplicon1, rc2.value, p);
    var aln4, score4 := NeedlemanWunsch(rc1.value, rc2.value, p);
    var maxScore := [Outcome(score1, aln1), Outcome(score2, aln2), Outcome(score3, aln3), Outcome(score4, aln4)];
    var optAln := SelectOrientation(maxScore);
    chosen := Some(maxScore[optAln]);
  }

  /** The chosen orientation scores at least as well as each of the four. */
  lemma ChosenScoresBest(a: string, b: string, p: Scoring)
    requires AllBases(a) && AllBases(b)
    ensures var xs := Orientations(a, b, p).value;
      forall j :: 0 <= j < 4 ==> xs[j].score <= xs[SelectOrientation(xs)].score
  {
    SelectedIsBest(Orientations(a, b, p).value);
  }
}

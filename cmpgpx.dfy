/**
 * Track alignment (cmpgpx.py): the Needleman-Wunsch alignment of two GPS
 * tracks, the share of matched columns it reports, and the union of the two
 * padded map boxes.
 *
 * `Score` is the recurrence behind the f-matrix and `ScoreMatrix` fills the
 * matrix as the source does. The backtrack reads that matrix; its
 * specification `Backtrace` is stated over any table obeying the
 * recurrence cell by cell (`IsScoreMatrix`), and `AlignTracks` is proved to
 * build exactly `Backtrace`. The lemmas say what the result means: it
 * aligns the two tracks without their first points, its score is the
 * matrix corner, no alignment scores higher, and among the best ones it is
 * the one the backtrack's tie-break prefers.
 */
module Cmpgpx {
  import opened Wrappers
  import opened Geo
  import opened Gfx

  /** The per-pair score; align_tracks uses minus the gpxpy distance. */
  type Similarity = (Point, Point) -> real

  /** One row of an alignment: a point per column, `None` for a gap. */
  type Aligned = seq<Option<Point>>

  /** A score table, indexed by a point of each track. */
  type Table = seq<seq<real>>

  function Max(a: real, b: real): (m: real)
    ensures m >= a && m >= b && (m == a || m == b)
  {
    if b > a then b else a
  }

  // ---------------------------------------------------------------------
  // The score matrix
  // ---------------------------------------------------------------------

  /**
   * Entry (i, j) of the f-matrix: the first column and row hold
   * gap * index, every inner entry the best of match, delete and insert.
   */
  function Score(t1: seq<Point>, t2: seq<Point>, gap: real, sim: Similarity, i: nat, j: nat): real
    requires i < |t1| && j < |t2|
    decreases i + j
  {
    if i == 0 then gap * (j as real)
    else if j == 0 then gap * (i as real)
    else
      Max(Score(t1, t2, gap, sim, i - 1, j - 1) + sim(t1[i], t2[j]),
          Max(Score(t1, t2, gap, sim, i - 1, j) + gap,
              Score(t1, t2, gap, sim, i, j - 1) + gap))
  }

  predicate Shaped(f: Table, n: nat, m: nat)
  {
    |f| == n && forall i :: 0 <= i < n ==> |f[i]| == m
  }

  /** Cell (i, j) of `f` obeys the recurrence of `Score`. */
  predicate ScoreAt(t1: seq<Point>, t2: seq<Point>, gap: real, sim: Similarity, f: Table, i: nat, j: nat)
    requires Shaped(f, |t1|, |t2|) && i < |t1| && j < |t2|
  {
    if i == 0 then f[0][j] == gap * (j as real)
    else if j == 0 then f[i][0] == gap * (i as real)
    else f[i][j] == Max(f[i - 1][j - 1] + sim(t1[i], t2[j]), Max(f[i - 1][j] + gap, f[i][j - 1] + gap))
  }

  predicate IsScoreMatrix(t1: seq<Point>, t2: seq<Point>, gap: real, sim: Similarity, f: Table)
  {
    Shaped(f, |t1|, |t2|) &&
    forall i, j :: 0 <= i < |t1| && 0 <= j < |t2| ==> ScoreAt(t1, t2, gap, sim, f, i, j)
  }

  /** The table of all `Score` entries. */
  ghost function ScoreTable(t1: seq<Point>, t2: seq<Point>, gap: real, sim: Similarity): (f: Table)
    ensures Shaped(f, |t1|, |t2|)
    ensures forall i, j :: 0 <= i < |t1| && 0 <= j < |t2| ==> f[i][j] == Score(t1, t2, gap, sim, i, j)
  {
    seq(|t1|, i requires 0 <= i < |t1| =>
      seq(|t2|, j requires 0 <= j < |t2| => Score(t1, t2, gap, sim, i, j)))
  }

  /** `Score` obeys its recurrence in every cell, and it is the only table that does. */
  lemma ScoreTableIsScoreMatrix(t1: seq<Point>, t2: seq<Point>, gap: real, sim: Similarity)
    ensures IsScoreMatrix(t1, t2, gap, sim, ScoreTable(t1, t2, gap, sim))
    ensures forall f :: IsScoreMatrix(t1, t2, gap, sim, f) ==> f == ScoreTable(t1, t2, gap, sim)
  {
    var g := ScoreTable(t1, t2, gap, sim);
    ScoresObeyRecurrence(t1, t2, gap, sim, g);
    forall f | IsScoreMatrix(t1, t2, gap, sim, f)
      ensures f == g
    {
      forall i, j | 0 <= i < |t1| && 0 <= j < |t2|
        ensures f[i][j] == g[i][j]
      {
        ScoreUnique(t1, t2, gap, sim, f, i, j);
      }
      forall i | 0 <= i < |t1| ensures f[i] == g[i] { }
    }
  }

  lemma {:induction false} ScoreUnique(t1: seq<Point>, t2: seq<Point>, gap: real, sim: Similarity, f: Table, i: nat, j: nat)
    requires IsScoreMatrix(t1, t2, gap, sim, f) && i < |t1| && j < |t2|
    ensures f[i][j] == Score(t1, t2, gap, sim, i, j)
    decreases i + j
  {
    assert ScoreAt(t1, t2, gap, sim, f, i, j);
    if i > 0 && j > 0 {
      ScoreUnique(t1, t2, gap, sim, f, i - 1, j - 1);
      ScoreUnique(t1, t2, gap, sim, f, i - 1, j);
      ScoreUnique(t1, t2, gap, sim, f, i, j - 1);
    }
  }

  /** The contents of a matrix, row by row. */
  ghost function Rows(f: array2<real>): (r: Table)
    reads f
    ensures Shaped(r, f.Length0, f.Length1)
    ensures forall i, j :: 0 <= i < f.Length0 && 0 <= j < f.Length1 ==> r[i][j] == f[i, j]
  {
    seq(f.Length0, i reads f requires 0 <= i < f.Length0 =>
      seq(f.Length1, j reads f requires 0 <= j < f.Length1 => f[i, j]))
  }

  /** One inner cell of the fill, from the three cells it reads. */
  lemma FillStep(t1: seq<Point>, t2: seq<Point>, gap: real, sim: Similarity, i: nat, j: nat, diag: real, up: real, left: real)
    requires 0 < i < |t1| && 0 < j < |t2|
    requires diag == Score(t1, t2, gap, sim, i - 1, j - 1)
    requires up == Score(t1, t2, gap, sim, i - 1, j)
    requires left == Score(t1, t2, gap, sim, i, j - 1)
    ensures Max(diag + sim(t1[i], t2[j]), Max(up + gap, left + gap)) == Score(t1, t2, gap, sim, i, j)
  {
  }

  /**
   * align_tracks' matrix fill: a zero matrix, the first column and then the
   * first row set to gap * index, then the inner cells row by row.
   */
  method ScoreMatrix(track1: seq<Point>, track2: seq<Point>, gapPenalty: real, similarity: Similarity)
    returns (f: array2<real>)
    requires |track1| > 0 <==> |track2| > 0
    ensures fresh(f) && f.Length0 == |track1| && f.Length1 == |track2|
    ensures IsScoreMatrix(track1, track2, gapPenalty, similarity, Rows(f))
  {
    f := new real[|track1|, |track2|]((i, j) => 0.0);
    if |track1| == 0 {
      return;
    }
    for i := 0 to |track1|
      invariant forall i' :: 0 <= i' < i ==> f[i', 0] == gapPenalty * (i' as real)
    {
      f[i, 0] := gapPenalty * (i as real);
    }
    for j := 0 to |track2|
      invariant forall i' :: 0 < i' < |track1| ==> f[i', 0] == gapPenalty * (i' as real)
      invariant forall j' :: 0 <= j' < j ==> f[0, j'] == gapPenalty * (j' as real)
    {
      f[0, j] := gapPenalty * (j as real);
    }
    for i := 1 to |track1|
      invariant forall i' :: 0 <= i' < |track1| ==> f[i', 0] == gapPenalty * (i' as real)
      invariant forall j' :: 0 <= j' < |track2| ==> f[0, j'] == gapPenalty * (j' as real)
      invariant forall i', j' :: 0 < i' < i && 0 < j' < |track2| ==>
        f[i', j'] == Score(track1, track2, gapPenalty, similarity, i', j')
    {
      FillRow(track1, track2, gapPenalty, similarity, f, i);
    }
    FilledMatrix(track1, track2, gapPenalty, similarity, f);
  }

  /** Cells (r, 0) to (r, n - 1) of the matrix hold their scores. */
  ghost predicate RowFilled(t1: seq<Point>, t2: seq<Point>, gap: real, sim: Similarity, f: array2<real>, r: nat, n: nat)
    requires f.Length0 == |t1| && f.Length1 == |t2| && r < |t1| && n <= |t2|
    reads f
  {
    forall j :: 0 <= j < n ==> f[r, j] == Score(t1, t2, gap, sim, r, j)
  }

  /** The inner loop of the fill: row i from left to right, from the row above. */
  method FillRow(track1: seq<Point>, track2: seq<Point>, gapPenalty: real, similarity: Similarity, f: array2<real>, i: nat)
    requires f.Length0 == |track1| && f.Length1 == |track2| > 0 && 0 < i < |track1|
    requires RowFilled(track1, track2, gapPenalty, similarity, f, i - 1, |track2|)
    requires RowFilled(track1, track2, gapPenalty, similarity, f, i, 1)
    modifies f
    ensures RowFilled(track1, track2, gapPenalty, similarity, f, i, |track2|)
    ensures forall i', j' :: 0 <= i' < |track1| && 0 <= j' < |track2| && i' != i ==> f[i', j'] == old(f[i', j'])
  {
    var t1 := track1[i];
    for j := 1 to |track2|
      invariant RowFilled(track1, track2, gapPenalty, similarity, f, i - 1, |track2|)
      invariant RowFilled(track1, track2, gapPenalty, similarity, f, i, j)
      invariant forall i', j' :: 0 <= i' < |track1| && 0 <= j' < |track2| && i' != i ==> f[i', j'] == old(f[i', j'])
    {
      var t2 := track2[j];
      var matchScore := f[i - 1, j - 1] + similarity(t1, t2);
      var deleteScore := f[i - 1, j] + gapPenalty;
      var insertScore := f[i, j - 1] + gapPenalty;
      FillStep(track1, track2, gapPenalty, similarity, i, j, f[i - 1, j - 1], f[i - 1, j], f[i, j - 1]);
      f[i, j] := Max(matchScore, Max(deleteScore, insertScore));
    }
  }

  /** The state the fill ends in: the borders and then every inner cell set. */
  lemma FilledMatrix(t1: seq<Point>, t2: seq<Point>, gap: real, sim: Similarity, f: array2<real>)
    requires f.Length0 == |t1| > 0 && f.Length1 == |t2| > 0
    requires forall i :: 0 <= i < |t1| ==> f[i, 0] == gap * (i as real)
    requires forall j :: 0 <= j < |t2| ==> f[0, j] == gap * (j as real)
    requires forall i, j :: 0 < i < |t1| && 0 < j < |t2| ==> f[i, j] == Score(t1, t2, gap, sim, i, j)
    ensures IsScoreMatrix(t1, t2, gap, sim, Rows(f))
  {
    var g := Rows(f);
    forall i, j | 0 <= i < |t1| && 0 <= j < |t2|
      ensures g[i][j] == Score(t1, t2, gap, sim, i, j)
    {
      if i > 0 && j > 0 {
        assert g[i][j] == f[i, j];
      }
    }
    ScoresObeyRecurrence(t1, t2, gap, sim, g);
  }

  /** A table of `Score` entries obeys the recurrence cell by cell. */
  lemma ScoresObeyRecurrence(t1: seq<Point>, t2: seq<Point>, gap: real, sim: Similarity, g: Table)
    requires Shaped(g, |t1|, |t2|)
    requires forall i, j :: 0 <= i < |t1| && 0 <= j < |t2| ==> g[i][j] == Score(t1, t2, gap, sim, i, j)
    ensures IsScoreMatrix(t1, t2, gap, sim, g)
  {
    forall i, j | 0 <= i < |t1| && 0 <= j < |t2|
      ensures ScoreAt(t1, t2, gap, sim, g, i, j)
    {
    }
  }

  // ---------------------------------------------------------------------
  // The backtrack
  // ---------------------------------------------------------------------

  /** The backtrack may step diagonally from (i, j). */
  predicate MatchStep(t1: seq<Point>, t2: seq<Point>, sim: Similarity, f: Table, i: nat, j: nat)
    requires Shaped(f, |t1|, |t2|) && i < |t1| && j < |t2|
  {
    i > 0 && j > 0 && f[i][j] == f[i - 1][j - 1] + sim(t1[i], t2[j])
  }

  /** The backtrack may step up from (i, j), putting a gap in the second row. */
  predicate DeleteStep(t1: seq<Point>, t2: seq<Point>, gap: real, f: Table, i: nat, j: nat)
    requires Shaped(f, |t1|, |t2|) && i < |t1| && j < |t2|
  {
    i > 0 && f[i][j] == f[i - 1][j] + gap
  }

  /** The backtrack may step left from (i, j), putting a gap in the first row. */
  predicate InsertStep(t1: seq<Point>, t2: seq<Point>, gap: real, f: Table, i: nat, j: nat)
    requires Shaped(f, |t1|, |t2|) && i < |t1| && j < |t2|
  {
    j > 0 && f[i][j] == f[i][j - 1] + gap
  }

  /** Away from the corner (0, 0) one of the backtrack's three tests succeeds. */
  lemma StepExists(t1: seq<Point>, t2: seq<Point>, gap: real, sim: Similarity, f: Table, i: nat, j: nat)
    requires IsScoreMatrix(t1, t2, gap, sim, f) && i < |t1| && j < |t2| && (i > 0 || j > 0)
    ensures MatchStep(t1, t2, sim, f, i, j) || DeleteStep(t1, t2, gap, f, i, j) || InsertStep(t1, t2, gap, f, i, j)
  {
    assert ScoreAt(t1, t2, gap, sim, f, i, j);
    if i == 0 {
      assert ScoreAt(t1, t2, gap, sim, f, 0, j - 1);
      assert gap * (j as real) == gap * ((j - 1) as real) + gap;
    } else if j == 0 {
      assert ScoreAt(t1, t2, gap, sim, f, i - 1, 0);
      assert gap * (i as real) == gap * ((i - 1) as real) + gap;
    }
  }

  /** No predecessor plus its step's score exceeds an entry. */
  lemma ScoreDominates(t1: seq<Point>, t2: seq<Point>, gap: real, sim: Similarity, f: Table, i: nat, j: nat)
    requires IsScoreMatrix(t1, t2, gap, sim, f) && i < |t1| && j < |t2|
    ensures i > 0 && j > 0 ==> f[i][j] >= f[i - 1][j - 1] + sim(t1[i], t2[j])
    ensures i > 0 ==> f[i][j] >= f[i - 1][j] + gap
    ensures j > 0 ==> f[i][j] >= f[i][j - 1] + gap
  {
    assert ScoreAt(t1, t2, gap, sim, f, i, j);
    if i == 0 && j > 0 {
      assert ScoreAt(t1, t2, gap, sim, f, 0, j - 1);
      assert gap * (j as real) == gap * ((j - 1) as real) + gap;
    } else if j == 0 && i > 0 {
      assert ScoreAt(t1, t2, gap, sim, f, i - 1, 0);
      assert gap * (i as real) == gap * ((i - 1) as real) + gap;
    }
  }

  /** The corner of the matrix is zero. */
  lemma ScoreOrigin(t1: seq<Point>, t2: seq<Point>, gap: real, sim: Similarity, f: Table)
    requires IsScoreMatrix(t1, t2, gap, sim, f) && |t1| > 0 && |t2| > 0
    ensures f[0][0] == 0.0
  {
    assert ScoreAt(t1, t2, gap, sim, f, 0, 0);
  }

  /** What a column holds; the backtrack tries the kinds in this order. */
  datatype ColumnKind = Match | Delete | Insert

  /**
   * The alignment the backtrack builds from (i, j): a diagonal step when it
   * is optimal, else a step up, else a step left, until the corner.
   */
  function Backtrace(t1: seq<Point>, t2: seq<Point>, gap: real, sim: Similarity, f: Table, i: nat, j: nat): (r: (Aligned, Aligned))
    requires IsScoreMatrix(t1, t2, gap, sim, f) && i < |t1| && j < |t2|
    ensures |r.0| == |r.1|
    decreases i + j
  {
    if i == 0 && j == 0 then ([], [])
    else if MatchStep(t1, t2, sim, f, i, j) then
      var c := Backtrace(t1, t2, gap, sim, f, i - 1, j - 1);
      (c.0 + [Some(t1[i])], c.1 + [Some(t2[j])])
    else if DeleteStep(t1, t2, gap, f, i, j) then
      var c := Backtrace(t1, t2, gap, sim, f, i - 1, j);
      (c.0 + [Some(t1[i])], c.1 + [None])
    else
      StepExists(t1, t2, gap, sim, f, i, j);
      var c := Backtrace(t1, t2, gap, sim, f, i, j - 1);
      (c.0 + [None], c.1 + [Some(t2[j])])
  }

  /**
   * One step of the backtrack away from the corner: the cell it moves to,
   * the column it emits, whose score the step from that cell accounts for,
   * and the kind of that column, the first of the three tests to succeed.
   */
  lemma BacktraceStep(t1: seq<Point>, t2: seq<Point>, gap: real, sim: Similarity, f: Table, i: nat, j: nat)
    returns (i': nat, j': nat, x: Option<Point>, y: Option<Point>)
    requires IsScoreMatrix(t1, t2, gap, sim, f) && i < |t1| && j < |t2| && (i > 0 || j > 0)
    ensures x.Some? || y.Some?
    ensures x.Some? ==> i > 0 && i' == i - 1 && x == Some(t1[i])
    ensures x.None? ==> i' == i
    ensures y.Some? ==> j > 0 && j' == j - 1 && y == Some(t2[j])
    ensures y.None? ==> j' == j
    ensures f[i][j] == f[i'][j'] + ColumnScore(x, y, gap, sim)
    ensures Kind(x, y) == if MatchStep(t1, t2, sim, f, i, j) then Match
                          else if DeleteStep(t1, t2, gap, f, i, j) then Delete else Insert
    ensures var c := Backtrace(t1, t2, gap, sim, f, i', j');
      Backtrace(t1, t2, gap, sim, f, i, j) == (c.0 + [x], c.1 + [y])
  {
    StepExists(t1, t2, gap, sim, f, i, j);
    if MatchStep(t1, t2, sim, f, i, j) {
      i', j', x, y := i - 1, j - 1, Some(t1[i]), Some(t2[j]);
    } else if DeleteStep(t1, t2, gap, f, i, j) {
      i', j', x, y := i - 1, j, Some(t1[i]), None;
    } else {
      i', j', x, y := i, j - 1, None, Some(t2[j]);
    }
  }

  // ---------------------------------------------------------------------
  // Alignments
  // ---------------------------------------------------------------------

  /** The points of an alignment row with its gaps removed. */
  function Ungapped(a: Aligned): (s: seq<Point>)
    ensures |s| <= |a|
  {
    if a == [] then []
    else Ungapped(a[..|a| - 1]) + (if a[|a| - 1].Some? then [a[|a| - 1].value] else [])
  }

  /** Two rows of equal length, no column of two gaps, spelling `s1` and `s2`. */
  predicate IsAlignment(a1: Aligned, a2: Aligned, s1: seq<Point>, s2: seq<Point>)
  {
    |a1| == |a2| &&
    (forall k :: 0 <= k < |a1| ==> a1[k].Some? || a2[k].Some?) &&
    Ungapped(a1) == s1 && Ungapped(a2) == s2
  }

  /** A column scores the similarity of its two points, or the gap penalty. */
  function ColumnScore(x: Option<Point>, y: Option<Point>, gap: real, sim: Similarity): real
  {
    if x.Some? && y.Some? then sim(x.value, y.value) else gap
  }

  /** The sum of the column scores. */
  function AlignmentScore(a1: Aligned, a2: Aligned, gap: real, sim: Similarity): real
    requires |a1| == |a2|
  {
    if a1 == [] then 0.0
    else
      AlignmentScore(a1[..|a1| - 1], a2[..|a2| - 1], gap, sim) +
      ColumnScore(a1[|a1| - 1], a2[|a2| - 1], gap, sim)
  }

  lemma SliceExtend(s: seq<Point>, lo: nat, hi: nat)
    requires lo <= hi < |s|
    ensures s[lo..hi] + [s[hi]] == s[lo..hi + 1]
  {
  }

  lemma UngappedAppend(a: Aligned, x: Option<Point>)
    ensures Ungapped(a + [x]) == Ungapped(a) + (if x.Some? then [x.value] else [])
  {
    assert (a + [x])[..|a|] == a;
  }

  lemma ScoreAppend(a1: Aligned, a2: Aligned, x: Option<Point>, y: Option<Point>, gap: real, sim: Similarity)
    requires |a1| == |a2|
    ensures AlignmentScore(a1 + [x], a2 + [y], gap, sim) == AlignmentScore(a1, a2, gap, sim) + ColumnScore(x, y, gap, sim)
  {
    assert (a1 + [x])[..|a1|] == a1;
    assert (a2 + [y])[..|a2|] == a2;
  }

  /** Appending a column to an alignment extends the rows it spells. */
  lemma AlignmentAppend(a1: Aligned, a2: Aligned, s1: seq<Point>, s2: seq<Point>, x: Option<Point>, y: Option<Point>)
    requires IsAlignment(a1, a2, s1, s2) && (x.Some? || y.Some?)
    ensures IsAlignment(a1 + [x], a2 + [y],
                        s1 + (if x.Some? then [x.value] else []),
                        s2 + (if y.Some? then [y.value] else []))
  {
    UngappedAppend(a1, x);
    UngappedAppend(a2, y);
  }

  /** An alignment whose last column is dropped spells both rows but their last points. */
  lemma AlignmentPrefix(a1: Aligned, a2: Aligned, s1: seq<Point>, s2: seq<Point>)
    requires IsAlignment(a1, a2, s1, s2) && |a1| > 0
    ensures var n := |a1| - 1;
      var x, y := a1[n], a2[n];
      a1 == a1[..n] + [x] && a2 == a2[..n] + [y] &&
      (x.Some? ==> |s1| > 0 && s1[|s1| - 1] == x.value) &&
      (y.Some? ==> |s2| > 0 && s2[|s2| - 1] == y.value) &&
      IsAlignment(a1[..n], a2[..n],
                  if x.Some? then s1[..|s1| - 1] else s1,
                  if y.Some? then s2[..|s2| - 1] else s2)
  {
    var n := |a1| - 1;
    assert a1 == a1[..n] + [a1[n]];
    assert a2 == a2[..n] + [a2[n]];
    UngappedAppend(a1[..n], a1[n]);
    UngappedAppend(a2[..n], a2[n]);
  }

  /** The tracks an alignment spells, ending at points i and j (first points excluded). */
  predicate AlignsUpTo(t1: seq<Point>, t2: seq<Point>, i: nat, j: nat, a1: Aligned, a2: Aligned)
    requires i < |t1| && j < |t2|
  {
    IsAlignment(a1, a2, t1[1..i + 1], t2[1..j + 1])
  }

  /** A column with point i of the first track, point j of the second, or both, extends an alignment. */
  lemma AlignsExtend(t1: seq<Point>, t2: seq<Point>, i: nat, j: nat, i': nat, j': nat,
                     a1: Aligned, a2: Aligned, x: Option<Point>, y: Option<Point>)
    requires i < |t1| && j < |t2| && (x.Some? || y.Some?)
    requires x.Some? ==> i > 0 && i' == i - 1 && x == Some(t1[i])
    requires x.None? ==> i' == i
    requires y.Some? ==> j > 0 && j' == j - 1 && y == Some(t2[j])
    requires y.None? ==> j' == j
    requires AlignsUpTo(t1, t2, i', j', a1, a2)
    ensures AlignsUpTo(t1, t2, i, j, a1 + [x], a2 + [y])
  {
    AlignmentAppend(a1, a2, t1[1..i' + 1], t2[1..j' + 1], x, y);
    if x.Some? { SliceExtend(t1, 1, i); }
    if y.Some? { SliceExtend(t2, 1, j); }
  }

  /** Dropping the last column of an alignment up to (i, j) leaves one up to the cell it came from. */
  lemma AlignsShrink(t1: seq<Point>, t2: seq<Point>, i: nat, j: nat, a1: Aligned, a2: Aligned) returns (i': nat, j': nat)
    requires i < |t1| && j < |t2| && AlignsUpTo(t1, t2, i, j, a1, a2)
    ensures |a1| == |a2|
    ensures |a1| == 0 <==> i == 0 && j == 0
    ensures |a1| > 0 ==>
      var n := |a1| - 1;
      a1 == a1[..n] + [a1[n]] && a2 == a2[..n] + [a2[n]] && (a1[n].Some? || a2[n].Some?) &&
      (a1[n].Some? ==> i > 0 && a1[n] == Some(t1[i]) && i' == i - 1) && (a1[n].None? ==> i' == i) &&
      (a2[n].Some? ==> j > 0 && a2[n] == Some(t2[j]) && j' == j - 1) && (a2[n].None? ==> j' == j) &&
      AlignsUpTo(t1, t2, i', j', a1[..n], a2[..n])
  {
    i', j' := i, j;
    if |a1| == 0 {
      assert |t1[1..i + 1]| == 0 && |t2[1..j + 1]| == 0;
    } else {
      var n := |a1| - 1;
      AlignmentPrefix(a1, a2, t1[1..i + 1], t2[1..j + 1]);
      if a1[n].Some? { SliceExtend(t1, 1, i); }
      if a2[n].Some? { SliceExtend(t2, 1, j); }
      assert |t1[1..i + 1]| == i && |t2[1..j + 1]| == j;
      if a1[n].Some? { i' := i - 1; }
      if a2[n].Some? { j' := j - 1; }
    }
  }

  /** The backtrack from (i, j) aligns track1[1..i] with track2[1..j]. */
  lemma {:induction false} BacktraceAligns(t1: seq<Point>, t2: seq<Point>, gap: real, sim: Similarity, f: Table, i: nat, j: nat)
    requires IsScoreMatrix(t1, t2, gap, sim, f) && i < |t1| && j < |t2|
    ensures var b := Backtrace(t1, t2, gap, sim, f, i, j);
      AlignsUpTo(t1, t2, i, j, b.0, b.1)
    decreases i + j
  {
    if i > 0 || j > 0 {
      var i', j', x, y := BacktraceStep(t1, t2, gap, sim, f, i, j);
      BacktraceAligns(t1, t2, gap, sim, f, i', j');
      var c := Backtrace(t1, t2, gap, sim, f, i', j');
      AlignsExtend(t1, t2, i, j, i', j', c.0, c.1, x, y);
    }
  }

  /** The backtrack's alignment scores exactly the matrix entry it starts from. */
  lemma {:induction false} BacktraceScore(t1: seq<Point>, t2: seq<Point>, gap: real, sim: Similarity, f: Table, i: nat, j: nat)
    requires IsScoreMatrix(t1, t2, gap, sim, f) && i < |t1| && j < |t2|
    ensures var b := Backtrace(t1, t2, gap, sim, f, i, j);
      AlignmentScore(b.0, b.1, gap, sim) == f[i][j]
    decreases i + j
  {
    if i == 0 && j == 0 {
      ScoreOrigin(t1, t2, gap, sim, f);
    } else {
      var i', j', x, y := BacktraceStep(t1, t2, gap, sim, f, i, j);
      BacktraceScore(t1, t2, gap, sim, f, i', j');
      var c := Backtrace(t1, t2, gap, sim, f, i', j');
      ScoreAppend(c.0, c.1, x, y, gap, sim);
    }
  }

  /** No alignment of track1[1..i] with track2[1..j] scores above entry (i, j). */
  lemma {:induction false} Optimal(t1: seq<Point>, t2: seq<Point>, gap: real, sim: Similarity, f: Table, i: nat, j: nat, a1: Aligned, a2: Aligned)
    requires IsScoreMatrix(t1, t2, gap, sim, f) && i < |t1| && j < |t2|
    requires AlignsUpTo(t1, t2, i, j, a1, a2)
    ensures AlignmentScore(a1, a2, gap, sim) <= f[i][j]
    decreases |a1|
  {
    var i', j' := AlignsShrink(t1, t2, i, j, a1, a2);
    if a1 == [] {
      ScoreOrigin(t1, t2, gap, sim, f);
    } else {
      var n := |a1| - 1;
      var p1, p2, x, y := a1[..n], a2[..n], a1[n], a2[n];
      Optimal(t1, t2, gap, sim, f, i', j', p1, p2);
      ScoreAppend(p1, p2, x, y, gap, sim);
      assert f[i'][j'] + ColumnScore(x, y, gap, sim) <= f[i][j] by {
        ScoreDominates(t1, t2, gap, sim, f, i, j);
      }
    }
  }

  /** An alignment's length lies between the longer track and the two together. */
  lemma {:induction false} AlignmentLength(a1: Aligned, a2: Aligned, s1: seq<Point>, s2: seq<Point>)
    requires IsAlignment(a1, a2, s1, s2)
    ensures |s1| <= |a1| && |s2| <= |a1| && |a1| <= |s1| + |s2|
    decreases |a1|
  {
    if |a1| > 0 {
      var n := |a1| - 1;
      AlignmentPrefix(a1, a2, s1, s2);
      AlignmentLength(a1[..n], a2[..n],
                      if a1[n].Some? then s1[..|s1| - 1] else s1,
                      if a2[n].Some? then s2[..|s2| - 1] else s2);
    }
  }

  // ---------------------------------------------------------------------
  // The tie-break
  // ---------------------------------------------------------------------

  function Kind(x: Option<Point>, y: Option<Point>): ColumnKind
  {
    if x.Some? && y.Some? then Match else if x.Some? then Delete else Insert
  }

  function Rank(k: ColumnKind): nat
  {
    match k
    case Match => 2
    case Delete => 1
    case Insert => 0
  }

  /**
   * Reading both alignments from their last column back, the first column
   * where their kinds differ has, in (b1, b2), a kind the backtrack tries
   * earlier.
   */
  ghost predicate PreferredOver(b1: Aligned, b2: Aligned, a1: Aligned, a2: Aligned)
    requires |b1| == |b2| && |a1| == |a2|
    decreases |b1|
  {
    |b1| > 0 && |a1| > 0 &&
    var kb, ka := Kind(b1[|b1| - 1], b2[|b2| - 1]), Kind(a1[|a1| - 1], a2[|a2| - 1]);
    Rank(kb) > Rank(ka) ||
    (kb == ka && PreferredOver(b1[..|b1| - 1], b2[..|b2| - 1], a1[..|a1| - 1], a2[..|a2| - 1]))
  }

  /** The backtrack's first test that succeeds at (i, j) decides its last column. */
  lemma BacktraceLast(t1: seq<Point>, t2: seq<Point>, gap: real, sim: Similarity, f: Table, i: nat, j: nat)
    requires IsScoreMatrix(t1, t2, gap, sim, f) && i < |t1| && j < |t2| && (i > 0 || j > 0)
    ensures MatchStep(t1, t2, sim, f, i, j) ==>
      var c := Backtrace(t1, t2, gap, sim, f, i - 1, j - 1);
      Backtrace(t1, t2, gap, sim, f, i, j) == (c.0 + [Some(t1[i])], c.1 + [Some(t2[j])])
    ensures !MatchStep(t1, t2, sim, f, i, j) && DeleteStep(t1, t2, gap, f, i, j) ==>
      var c := Backtrace(t1, t2, gap, sim, f, i - 1, j);
      Backtrace(t1, t2, gap, sim, f, i, j) == (c.0 + [Some(t1[i])], c.1 + [None])
    ensures !MatchStep(t1, t2, sim, f, i, j) && !DeleteStep(t1, t2, gap, f, i, j) ==>
      InsertStep(t1, t2, gap, f, i, j) &&
      var c := Backtrace(t1, t2, gap, sim, f, i, j - 1);
      Backtrace(t1, t2, gap, sim, f, i, j) == (c.0 + [None], c.1 + [Some(t2[j])])
  {
    StepExists(t1, t2, gap, sim, f, i, j);
  }

  /**
   * A column that steps optimally into (i, j) passes the backtrack's test for
   * its kind, so the backtrack's own last column there is of that kind or of
   * one it tries earlier, and when of the same kind it is that very column.
   */
  lemma StepPreferred(t1: seq<Point>, t2: seq<Point>, gap: real, sim: Similarity, f: Table, i: nat, j: nat,
                      i': nat, j': nat, x: Option<Point>, y: Option<Point>)
    returns (ib: nat, jb: nat, xb: Option<Point>, yb: Option<Point>)
    requires IsScoreMatrix(t1, t2, gap, sim, f) && i < |t1| && j < |t2|
    requires x.Some? || y.Some?
    requires x.Some? ==> i > 0 && i' == i - 1 && x == Some(t1[i])
    requires x.None? ==> i' == i
    requires y.Some? ==> j > 0 && j' == j - 1 && y == Some(t2[j])
    requires y.None? ==> j' == j
    requires f[i][j] == f[i'][j'] + ColumnScore(x, y, gap, sim)
    ensures ib <= i && jb <= j
    ensures Rank(Kind(xb, yb)) >= Rank(Kind(x, y))
    ensures Kind(xb, yb) == Kind(x, y) ==> ib == i' && jb == j' && xb == x && yb == y
    ensures var c := Backtrace(t1, t2, gap, sim, f, ib, jb);
      Backtrace(t1, t2, gap, sim, f, i, j) == (c.0 + [xb], c.1 + [yb])
  {
    ib, jb, xb, yb := BacktraceStep(t1, t2, gap, sim, f, i, j);
  }

  /**
   * Among the alignments of highest score, the backtrack's is the one it
   * prefers: any other optimal alignment loses the tie-break.
   */
  lemma {:induction false} BacktracePreferred(t1: seq<Point>, t2: seq<Point>, gap: real, sim: Similarity, f: Table, i: nat, j: nat, a1: Aligned, a2: Aligned)
    requires IsScoreMatrix(t1, t2, gap, sim, f) && i < |t1| && j < |t2|
    requires AlignsUpTo(t1, t2, i, j, a1, a2) && AlignmentScore(a1, a2, gap, sim) == f[i][j]
    ensures var b := Backtrace(t1, t2, gap, sim, f, i, j);
      (a1, a2) == b || PreferredOver(b.0, b.1, a1, a2)
    decreases i + j
  {
    var i', j' := AlignsShrink(t1, t2, i, j, a1, a2);
    if i == 0 && j == 0 {
      return;
    }
    var n := |a1| - 1;
    var p1, p2, x, y := a1[..n], a2[..n], a1[n], a2[n];
    Optimal(t1, t2, gap, sim, f, i', j', p1, p2);
    ScoreAppend(p1, p2, x, y, gap, sim);
    // the prefix of an optimal alignment is optimal too
    assert AlignmentScore(p1, p2, gap, sim) == f[i'][j'] by {
      ScoreDominates(t1, t2, gap, sim, f, i, j);
    }
    var ib, jb, xb, yb := StepPreferred(t1, t2, gap, sim, f, i, j, i', j', x, y);
    var b := Backtrace(t1, t2, gap, sim, f, i, j);
    var c := Backtrace(t1, t2, gap, sim, f, ib, jb);
    assert b.0[..|b.0| - 1] == c.0 && b.1[..|b.1| - 1] == c.1;
    assert b.0[|b.0| - 1] == xb && b.1[|b.1| - 1] == yb;
    if Kind(xb, yb) == Kind(x, y) {
      BacktracePreferred(t1, t2, gap, sim, f, i', j', p1, p2);
    }
  }

  // ---------------------------------------------------------------------
  // A track aligned with itself
  // ---------------------------------------------------------------------

  /** Minus a distance: never positive, and zero from a point to itself. */
  ghost predicate DistanceLike(sim: Similarity)
  {
    (forall p, q :: sim(p, q) <= 0.0) && (forall p :: sim(p, p) == 0.0)
  }

  lemma NonPositiveMultiple(gap: real, n: nat)
    requires gap <= 0.0
    ensures gap * (n as real) <= 0.0
  {
  }

  /** Aligning a track with itself, no entry is positive and the diagonal is zero. */
  lemma {:induction false} SelfScore(t: seq<Point>, gap: real, sim: Similarity, f: Table, i: nat, j: nat)
    requires IsScoreMatrix(t, t, gap, sim, f) && i < |t| && j < |t|
    requires gap <= 0.0 && DistanceLike(sim)
    ensures f[i][j] <= 0.0 && (i == j ==> f[i][j] == 0.0)
    decreases i + j
  {
    assert ScoreAt(t, t, gap, sim, f, i, j);
    if i == 0 {
      NonPositiveMultiple(gap, j);
    } else if j == 0 {
      NonPositiveMultiple(gap, i);
    } else {
      SelfScore(t, gap, sim, f, i - 1, j - 1);
      SelfScore(t, gap, sim, f, i - 1, j);
      SelfScore(t, gap, sim, f, i, j - 1);
    }
  }

  /** The column of one point of the track matched with itself, for every point after the first. */
  function SelfColumns(t: seq<Point>, i: nat): (a: Aligned)
    requires i < |t|
    ensures |a| == i && forall k :: 0 <= k < i ==> a[k] == Some(t[k + 1])
  {
    seq(i, k requires 0 <= k < i => Some(t[k + 1]))
  }

  /** A track aligned with itself matches every point with itself and has no gap. */
  lemma {:induction false} SelfBacktrace(t: seq<Point>, gap: real, sim: Similarity, f: Table, i: nat)
    requires IsScoreMatrix(t, t, gap, sim, f) && i < |t|
    requires gap <= 0.0 && DistanceLike(sim)
    ensures Backtrace(t, t, gap, sim, f, i, i) == (SelfColumns(t, i), SelfColumns(t, i))
    decreases i
  {
    if i > 0 {
      SelfScore(t, gap, sim, f, i, i);
      SelfScore(t, gap, sim, f, i - 1, i - 1);
      assert MatchStep(t, t, sim, f, i, i);
      SelfBacktrace(t, gap, sim, f, i - 1);
      assert SelfColumns(t, i - 1) + [Some(t[i])] == SelfColumns(t, i);
    }
  }

  // ---------------------------------------------------------------------
  // align_tracks
  // ---------------------------------------------------------------------

  /**
   * align_tracks: fill the matrix, then walk back from the last cell,
   * prepending a matched pair, a point against a gap, or a gap against a
   * point, whichever test succeeds first.
   */
  method AlignTracks(track1: seq<Point>, track2: seq<Point>, gapPenalty: real, similarity: Similarity)
    returns (a1: Aligned, a2: Aligned)
    requires |track1| > 0 <==> |track2| > 0
    ensures |track1| == 0 ==> a1 == [] && a2 == []
    ensures |track1| > 0 ==>
      var f := ScoreTable(track1, track2, gapPenalty, similarity);
      IsScoreMatrix(track1, track2, gapPenalty, similarity, f) &&
      (a1, a2) == Backtrace(track1, track2, gapPenalty, similarity, f, |track1| - 1, |track2| - 1)
    ensures IsAlignment(a1, a2, if |track1| > 0 then track1[1..] else [], if |track2| > 0 then track2[1..] else [])
    ensures |track1| > 0 ==>
      AlignmentScore(a1, a2, gapPenalty, similarity) == Score(track1, track2, gapPenalty, similarity, |track1| - 1, |track2| - 1)
    ensures forall b1, b2 :: |track1| > 0 && IsAlignment(b1, b2, track1[1..], track2[1..]) ==>
      AlignmentScore(b1, b2, gapPenalty, similarity) <= AlignmentScore(a1, a2, gapPenalty, similarity)
    ensures forall b1, b2 ::
      (|track1| > 0 && IsAlignment(b1, b2, track1[1..], track2[1..]) &&
       AlignmentScore(b1, b2, gapPenalty, similarity) == AlignmentScore(a1, a2, gapPenalty, similarity)) ==>
      (b1, b2) == (a1, a2) || PreferredOver(a1, a2, b1, b2)
    ensures |a1| == 0 <==> |track1| <= 1 && |track2| <= 1
    ensures |track1| > 0 ==> |track1| - 1 <= |a1| && |track2| - 1 <= |a1| <= |track1| + |track2| - 2
  {
    var f := ScoreMatrix(track1, track2, gapPenalty, similarity);
    if |track1| == 0 {
      return [], [];
    }
    a1, a2 := Backtrack(track1, track2, gapPenalty, similarity, f, Rows(f));
    ScoreTableIsScoreMatrix(track1, track2, gapPenalty, similarity);
    assert Rows(f) == ScoreTable(track1, track2, gapPenalty, similarity);
    AlignTracksMeaning(track1, track2, gapPenalty, similarity, Rows(f), a1, a2);
  }

  /**
   * The backtrack of align_tracks over a filled matrix: from the last cell
   * back to (0, 0), prepend a matched pair, a point against a gap, or a gap
   * against a point, whichever of the three tests succeeds first.
   */
  method Backtrack(track1: seq<Point>, track2: seq<Point>, gapPenalty: real, similarity: Similarity,
                   f: array2<real>, ghost table: Table)
    returns (a1: Aligned, a2: Aligned)
    requires f.Length0 == |track1| > 0 && f.Length1 == |track2| > 0
    requires IsScoreMatrix(track1, track2, gapPenalty, similarity, table)
    requires forall i, j :: 0 <= i < |track1| && 0 <= j < |track2| ==> f[i, j] == table[i][j]
    ensures (a1, a2) == Backtrace(track1, track2, gapPenalty, similarity, table, |track1| - 1, |track2| - 1)
  {
    a1, a2 := [], [];
    var i: nat, j: nat := |track1| - 1, |track2| - 1;
    ghost var result := Backtrace(track1, track2, gapPenalty, similarity, table, i, j);
    // what is still to be prepended: the backtrace from the current cell
    ghost var rest := result;
    while i > 0 || j > 0
      invariant i < |track1| && j < |track2|
      invariant rest == Backtrace(track1, track2, gapPenalty, similarity, table, i, j)
      invariant result.0 == rest.0 + a1 && result.1 == rest.1 + a2
      decreases i + j
    {
      BacktraceLast(track1, track2, gapPenalty, similarity, table, i, j);
      ghost var prev := rest;
      if i > 0 && j > 0 && f[i, j] == f[i - 1, j - 1] + similarity(track1[i], track2[j]) {
        rest := Backtrace(track1, track2, gapPenalty, similarity, table, i - 1, j - 1);
        Regroup(result.0, prev.0, rest.0, Some(track1[i]), a1);
        Regroup(result.1, prev.1, rest.1, Some(track2[j]), a2);
        a1 := [Some(track1[i])] + a1;
        a2 := [Some(track2[j])] + a2;
        i := i - 1;
        j := j - 1;
      } else if i > 0 && f[i, j] == f[i - 1, j] + gapPenalty {
        rest := Backtrace(track1, track2, gapPenalty, similarity, table, i - 1, j);
        Regroup(result.0, prev.0, rest.0, Some(track1[i]), a1);
        Regroup(result.1, prev.1, rest.1, None, a2);
        a1 := [Some(track1[i])] + a1;
        a2 := [None] + a2;
        i := i - 1;
      } else if j > 0 && f[i, j] == f[i, j - 1] + gapPenalty {
        rest := Backtrace(track1, track2, gapPenalty, similarity, table, i, j - 1);
        Regroup(result.0, prev.0, rest.0, None, a1);
        Regroup(result.1, prev.1, rest.1, Some(track2[j]), a2);
        a1 := [None] + a1;
        a2 := [Some(track2[j])] + a2;
        j := j - 1;
      } else {
        assert false;
      }
    }
    assert rest == ([], []);
    assert rest.0 + a1 == a1 && rest.1 + a2 == a2;
  }

  /** Moving a column from the front of what is left to the front of what is done. */
  lemma Regroup(whole: Aligned, prev: Aligned, rest: Aligned, x: Option<Point>, done: Aligned)
    requires whole == prev + done && prev == rest + [x]
    ensures whole == rest + ([x] + done)
  {
  }

  /** What the backtrack from the last cell achieves, for any table obeying the recurrence. */
  lemma {:induction false} AlignTracksMeaning(t1: seq<Point>, t2: seq<Point>, gap: real, sim: Similarity, f: Table, a1: Aligned, a2: Aligned)
    requires IsScoreMatrix(t1, t2, gap, sim, f) && |t1| > 0 && |t2| > 0
    requires (a1, a2) == Backtrace(t1, t2, gap, sim, f, |t1| - 1, |t2| - 1)
    ensures IsAlignment(a1, a2, t1[1..], t2[1..])
    ensures AlignmentScore(a1, a2, gap, sim) == f[|t1| - 1][|t2| - 1]
    ensures forall b1, b2 :: IsAlignment(b1, b2, t1[1..], t2[1..]) ==>
      AlignmentScore(b1, b2, gap, sim) <= AlignmentScore(a1, a2, gap, sim)
    ensures forall b1, b2 ::
      (IsAlignment(b1, b2, t1[1..], t2[1..]) &&
       AlignmentScore(b1, b2, gap, sim) == AlignmentScore(a1, a2, gap, sim)) ==>
      (b1, b2) == (a1, a2) || PreferredOver(a1, a2, b1, b2)
    ensures |a1| == 0 <==> |t1| == 1 && |t2| == 1
    ensures |t1| - 1 <= |a1| && |t2| - 1 <= |a1| <= |t1| + |t2| - 2
  {
    var n, m := |t1| - 1, |t2| - 1;
    assert t1[1..n + 1] == t1[1..] && t2[1..m + 1] == t2[1..];
    assert IsAlignment(a1, a2, t1[1..], t2[1..]) by {
      BacktraceAligns(t1, t2, gap, sim, f, n, m);
    }
    assert |t1[1..]| == n && |t2[1..]| == m;
    assert n <= |a1| && m <= |a1| <= n + m by {
      AlignmentLength(a1, a2, t1[1..], t2[1..]);
    }
    BacktraceScore(t1, t2, gap, sim, f, n, m);
    BacktraceBest(t1, t2, gap, sim, f, a1, a2);
  }

  /** No alignment of the whole tracks beats the backtrack's, and none ties it and wins the tie-break. */
  lemma {:induction false} BacktraceBest(t1: seq<Point>, t2: seq<Point>, gap: real, sim: Similarity, f: Table, a1: Aligned, a2: Aligned)
    requires IsScoreMatrix(t1, t2, gap, sim, f) && |t1| > 0 && |t2| > 0
    requires (a1, a2) == Backtrace(t1, t2, gap, sim, f, |t1| - 1, |t2| - 1)
    requires AlignmentScore(a1, a2, gap, sim) == f[|t1| - 1][|t2| - 1]
    ensures forall b1, b2 :: IsAlignment(b1, b2, t1[1..], t2[1..]) ==>
      AlignmentScore(b1, b2, gap, sim) <= AlignmentScore(a1, a2, gap, sim)
    ensures forall b1, b2 ::
      (IsAlignment(b1, b2, t1[1..], t2[1..]) &&
       AlignmentScore(b1, b2, gap, sim) == AlignmentScore(a1, a2, gap, sim)) ==>
      (b1, b2) == (a1, a2) || PreferredOver(a1, a2, b1, b2)
  {
    var n, m := |t1| - 1, |t2| - 1;
    assert t1[1..n + 1] == t1[1..] && t2[1..m + 1] == t2[1..];
    forall b1, b2 | IsAlignment(b1, b2, t1[1..], t2[1..])
      ensures AlignmentScore(b1, b2, gap, sim) <= AlignmentScore(a1, a2, gap, sim)
      ensures AlignmentScore(b1, b2, gap, sim) == AlignmentScore(a1, a2, gap, sim) ==>
        (b1, b2) == (a1, a2) || PreferredOver(a1, a2, b1, b2)
    {
      Optimal(t1, t2, gap, sim, f, n, m, b1, b2);
      if AlignmentScore(b1, b2, gap, sim) == AlignmentScore(a1, a2, gap, sim) {
        BacktracePreferred(t1, t2, gap, sim, f, n, m, b1, b2);
      }
    }
  }

  // ---------------------------------------------------------------------
  // The match ratio
  // ---------------------------------------------------------------------

  /** The number of columns that pair a point with a point. */
  function Matches(a1: Aligned, a2: Aligned): (c: nat)
    requires |a1| <= |a2|
    ensures c <= |a1|
  {
    if a1 == [] then 0
    else
      var n := |a1| - 1;
      Matches(a1[..n], a2) + (if a1[n].Some? && a2[n].Some? then 1 else 0)
  }

  /** Every column is matched exactly when the count reaches the length. */
  lemma {:induction false} AllMatched(a1: Aligned, a2: Aligned)
    requires |a1| <= |a2|
    ensures Matches(a1, a2) == |a1| <==> forall k :: 0 <= k < |a1| ==> a1[k].Some? && a2[k].Some?
  {
    if a1 != [] {
      var n := |a1| - 1;
      AllMatched(a1[..n], a2);
      if Matches(a1, a2) == |a1| {
        assert Matches(a1[..n], a2) == n;
        forall k | 0 <= k < |a1|
          ensures a1[k].Some? && a2[k].Some?
        {
          if k < n {
            assert a1[..n][k] == a1[k];
          }
        }
      } else if forall k :: 0 <= k < |a1| ==> a1[k].Some? && a2[k].Some? {
        forall k | 0 <= k < n
          ensures a1[..n][k].Some? && a2[k].Some?
        {
        }
      }
    }
  }

  lemma RatioBounds(c: nat, n: nat)
    requires 0 < n && c <= n
    ensures 0.0 <= (c as real) / (n as real) <= 1.0
    ensures (c as real) / (n as real) == 1.0 <==> c == n
  {
    var q := (c as real) / (n as real);
    assert q * (n as real) == c as real;
    assert (1.0 - q) * (n as real) == (n - c) as real;
    if q == 1.0 {
      assert c as real == n as real;
    }
  }

  /**
   * The similarity figure main logs after aligning: the share of columns
   * that match a point with a point. With no column at all the division
   * fails (Python raises ZeroDivisionError); that is `None`.
   */
  method MatchRatio(a1: Aligned, a2: Aligned) returns (r: Option<real>)
    requires |a1| <= |a2|
    ensures r.None? <==> |a1| == 0
    ensures r.Some? ==> r.value == (Matches(a1, a2) as real) / (|a1| as real)
    ensures r.Some? ==> 0.0 <= r.value <= 1.0
    ensures r.Some? ==> (r.value == 1.0 <==> forall k :: 0 <= k < |a1| ==> a1[k].Some? && a2[k].Some?)
  {
    var matched: nat := 0;
    for i := 0 to |a1|
      invariant matched == Matches(a1[..i], a2)
    {
      assert a1[..i + 1][..i] == a1[..i];
      if a1[i].Some? && a2[i].Some? {
        matched := matched + 1;
      }
    }
    assert a1[..|a1|] == a1;
    if |a1| == 0 {
      return None;
    }
    AllMatched(a1, a2);
    RatioBounds(matched, |a1|);
    r := Some((matched as real) / (|a1| as real));
  }

  /**
   * A track aligned with itself (under a gap penalty that is not positive
   * and a similarity that behaves like minus a distance) matches every
   * point after the first with itself, so every column is a match.
   */
  lemma SelfAlignment(t: seq<Point>, gap: real, sim: Similarity)
    requires |t| > 0 && gap <= 0.0 && DistanceLike(sim)
    ensures IsScoreMatrix(t, t, gap, sim, ScoreTable(t, t, gap, sim))
    ensures var a := Backtrace(t, t, gap, sim, ScoreTable(t, t, gap, sim), |t| - 1, |t| - 1);
      a.0 == a.1 && |a.0| == |t| - 1 &&
      (forall k :: 0 <= k < |a.0| ==> a.0[k] == Some(t[k + 1])) &&
      Matches(a.0, a.1) == |a.0|
  {
    var f := ScoreTable(t, t, gap, sim);
    ScoreTableIsScoreMatrix(t, t, gap, sim);
    SelfBacktrace(t, gap, sim, f, |t| - 1);
    var a := SelfColumns(t, |t| - 1);
    AllMatched(a, a);
  }

  // ---------------------------------------------------------------------
  // The map extent
  // ---------------------------------------------------------------------

  function Min(a: real, b: real): (m: real)
    ensures m <= a && m <= b && (m == a || m == b)
  {
    if b < a then b else a
  }

  /** The box main draws on: each edge the outermost of the two boxes' edges. */
  function Union(b1: BBox, b2: BBox): (r: BBox)
    ensures Contains(r, b1) && Contains(r, b2)
    ensures forall c :: Contains(c, b1) && Contains(c, b2) ==> Contains(c, r)
    ensures WellFormed(b1) ==> WellFormed(r)
  {
    BBox(Min(b1.minLon, b2.minLon), Min(b1.minLat, b2.minLat),
         Max(b1.maxLon, b2.maxLon), Max(b1.maxLat, b2.maxLat))
  }

  /**
   * main's map extent: both tracks' bounds padded by 10 percent, then
   * joined. It covers each track's own bounds.
   */
  function MapBounds(bounds1: BBox, bounds2: BBox): (r: BBox)
    ensures WellFormed(bounds1) ==> Contains(r, bounds1) && WellFormed(r)
    ensures WellFormed(bounds2) ==> Contains(r, bounds2)
    ensures Contains(r, AddPadding(bounds1, 10.0)) && Contains(r, AddPadding(bounds2, 10.0))
  {
    Union(AddPadding(bounds1, 10.0), AddPadding(bounds2, 10.0))
  }
}

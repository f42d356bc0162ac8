/**
  `fuzzy_match`: build the candidate rows, sweep them, pick the last maximal cell
  of the last row and follow back-references to recover the matched positions.
 */
module FuzzyMatcher {
  import opened Wrappers
  import opened Ascii
  import opened Subsequence
  import opened Scoring
  import opened MatchRows
  import opened MatchSweep

  /**
    The outcome of `fuzzy_match`: `Some((score, picked))`, `None`, or a panic of the
    program (the `string[index - 1]` underflow).
   */
  datatype MatchResult = Matched(score: int, picked: seq<nat>) | NoMatch | Panicked

  /**
    The back-tracking loop: starting at cell `col` of row `p`, collect the cell
    positions of rows `p`, `p - 1`, ..., `0` along the back-references, in
    ascending order (the source pushes them and then reverses the vector).
   */
  function Traceback(rows: seq<Row>, p: nat, col: nat): (t: seq<nat>)
    requires p < |rows| && col < |rows[p]| && Linked(rows)
    ensures |t| == p + 1 && t[p] == rows[p][col].idx
    decreases p
  {
    if p == 0 then
      [rows[0][col].idx]
    else
      var c := rows[p][col];
      assert BackRefOk(rows[p - 1], c);
      Traceback(rows, p - 1, c.backRef) + [c.idx]
  }

  /**
    The trace from cell `col` of row `p` is read along the back-references: row by
    row it lists the positions of the cells the chain from `col` passes through.
   */
  lemma {:induction false} TracebackFollows(rows: seq<Row>, p: nat, col: nat)
    requires p < |rows| && col < |rows[p]| && Linked(rows)
    ensures exists cols :: |cols| == p + 1 && cols[p] == col && FollowsBackRefs(rows, Traceback(rows, p, col), cols)
    decreases p
  {
    var t := Traceback(rows, p, col);
    if p == 0 {
      assert FollowsBackRefs(rows, t, [col]);
    } else {
      var c := rows[p][col];
      assert BackRefOk(rows[p - 1], c);
      TracebackFollows(rows, p - 1, c.backRef);
      FollowsSnoc(rows, Traceback(rows, p - 1, c.backRef), p, col);
    }
  }

  /**
    `t` is read along a chain of back-references through the cells `cols`: cell
    `cols[q]` of row `q` sits at position `t[q]`, and every cell after the first
    names the cell before it as its `back_ref`.
   */
  predicate FollowsBackRefs(rows: seq<Row>, t: seq<nat>, cols: seq<nat>) {
    && |cols| == |t| <= |rows|
    && (forall q :: 0 <= q < |t| ==> cols[q] < |rows[q]| && rows[q][cols[q]].idx == t[q])
    && (forall q :: 0 < q < |t| ==> rows[q][cols[q]].backRef == cols[q - 1])
  }

  /** Stepping from cell `col` of row `p` to the cell it refers back to extends the chain by one. */
  lemma FollowsSnoc(rows: seq<Row>, prefix: seq<nat>, p: nat, col: nat)
    requires 0 < p < |rows| && col < |rows[p]| && |prefix| == p
    requires exists cols :: |cols| == p && cols[p - 1] == rows[p][col].backRef && FollowsBackRefs(rows, prefix, cols)
    ensures exists cols :: |cols| == p + 1 && cols[p] == col && FollowsBackRefs(rows, prefix + [rows[p][col].idx], cols)
  {
    var cols :| |cols| == p && cols[p - 1] == rows[p][col].backRef && FollowsBackRefs(rows, prefix, cols);
    var t := prefix + [rows[p][col].idx];
    var cols' := cols + [col];
    forall q | 0 <= q < |t|
      ensures cols'[q] < |rows[q]| && rows[q][cols'[q]].idx == t[q]
    {
      if q < p {
        assert cols'[q] == cols[q] && t[q] == prefix[q];
      }
    }
    forall q | 0 < q < |t|
      ensures rows[q][cols'[q]].backRef == cols'[q - 1]
    {
      assert cols'[q - 1] == cols[q - 1];
      if q < p {
        assert cols'[q] == cols[q];
      }
    }
    assert FollowsBackRefs(rows, t, cols');
  }

  /** The column a chain passes through in row `q` is fixed by the column it ends at. */
  lemma {:induction false} SameColumns(rows: seq<Row>, t1: seq<nat>, cols1: seq<nat>, t2: seq<nat>, cols2: seq<nat>, q: nat)
    requires FollowsBackRefs(rows, t1, cols1) && FollowsBackRefs(rows, t2, cols2)
    requires q < |t1| == |t2| && cols1[|t1| - 1] == cols2[|t2| - 1]
    ensures cols1[q] == cols2[q]
    decreases |t1| - q
  {
    if q < |t1| - 1 {
      SameColumns(rows, t1, cols1, t2, cols2, q + 1);
      assert cols1[q] == rows[q + 1][cols1[q + 1]].backRef;
      assert cols2[q] == rows[q + 1][cols2[q + 1]].backRef;
    }
  }

  /** Two back-reference chains of the same length ending at the same cell read the same positions. */
  lemma FollowsBackRefsUnique(rows: seq<Row>, t1: seq<nat>, cols1: seq<nat>, t2: seq<nat>, cols2: seq<nat>)
    requires FollowsBackRefs(rows, t1, cols1) && FollowsBackRefs(rows, t2, cols2)
    requires 0 < |t1| == |t2| && cols1[|t1| - 1] == cols2[|t2| - 1]
    ensures t1 == t2
  {
    forall q | 0 <= q < |t1|
      ensures t1[q] == t2[q]
    {
      SameColumns(rows, t1, cols1, t2, cols2, q);
    }
  }

  /**
    A trace visits, row by row, the position of some cell of that row, and its
    positions strictly increase.
   */
  lemma {:induction false} TracebackOccurs(rows: seq<Row>, p: nat, col: nat)
    requires p < |rows| && col < |rows[p]| && Linked(rows)
    ensures forall q :: 0 <= q <= p ==> Occurs(rows[q], Traceback(rows, p, col)[q])
    ensures forall i, j :: 0 <= i < j <= p ==> Traceback(rows, p, col)[i] < Traceback(rows, p, col)[j]
    decreases p
  {
    var t := Traceback(rows, p, col);
    assert Occurs(rows[p], t[p]);
    if 0 < p {
      var c := rows[p][col];
      assert BackRefOk(rows[p - 1], c);
      var prefix := Traceback(rows, p - 1, c.backRef);
      TracebackOccurs(rows, p - 1, c.backRef);
      assert t == prefix + [c.idx];
      forall q | 0 <= q < p
        ensures Occurs(rows[q], t[q])
      {
        assert t[q] == prefix[q];
      }
      forall i, j | 0 <= i < j <= p
        ensures t[i] < t[j]
      {
        if j < p {
          assert t[i] == prefix[i] && t[j] == prefix[j];
        } else {
          assert t[i] == prefix[i] && prefix[i] <= prefix[p - 1];
        }
      }
    }
  }

  function FinalScores(row: Row): (keys: seq<int>)
    ensures |keys| == |row|
    ensures forall j :: 0 <= j < |row| ==> keys[j] == row[j].finalScore
  {
    seq(|row|, j requires 0 <= j < |row| => row[j].finalScore)
  }

  /** The rows after the sweep, when every pattern character found a candidate. */
  function Swept(v: Variant, choice: seq<char>, pattern: seq<char>): (r: Option<seq<Row>>)
    requires |pattern| > 0
    ensures r.Some? ==> Layered(choice, pattern, r.value) && Linked(r.value) && FirstRowFresh(r.value)
    ensures r.Some? && v.Corrected? ==> ChainedRows(r.value)
    ensures r.None? <==> !IsSubsequence(choice, pattern)
  {
    match Rows(choice, pattern)
    case None => None
    case Some(rows) =>
      BuiltRowsLayered(choice, pattern, rows);
      var swept := Sweep(v, rows);
      SweptLayered(choice, pattern, rows, swept);
      Some(swept)
  }

  lemma SweptLayered(choice: seq<char>, pattern: seq<char>, rows: seq<Row>, swept: seq<Row>)
    requires Layered(choice, pattern, rows) && FirstRowFresh(rows)
    requires 0 < |rows| && SameCellsRows(swept, rows) && Stacked(swept) && swept[0] == rows[0]
    ensures Layered(choice, pattern, swept) && FirstRowFresh(swept)
  {
    forall q | 0 <= q < |swept|
      ensures CellsMatch(choice, pattern, q, swept[q])
    {
      assert SameCells(swept[q], rows[q]) && CellsMatch(choice, pattern, q, rows[q]);
    }
  }

  /** `c` is the last cell of `last` holding the maximal final score, and `score` is that score. */
  predicate LastMaxCell(last: Row, score: int, c: nat) {
    IsLastMax(FinalScores(last), 0, |last|, c) && last[c].finalScore == score
  }

  /**
    The answer ends at cell `c` of the last row, the last cell of maximal final
    score, carries its score, and its positions are read along the back-references
    from that cell, one per row.
   */
  ghost predicate EndsAtLastMax(rows: seq<Row>, r: MatchResult, c: nat) {
    && r.Matched? && 0 < |rows| && |r.picked| == |rows|
    && LastMaxCell(rows[|rows| - 1], r.score, c)
    && r.picked[|r.picked| - 1] == rows[|rows| - 1][c].idx
    && exists cols :: |cols| == |rows| && cols[|rows| - 1] == c && FollowsBackRefs(rows, r.picked, cols)
  }

  /** The last maximal cell of a row is unique. */
  lemma LastMaxCellUnique(last: Row, s1: int, c1: nat, s2: int, c2: nat)
    requires LastMaxCell(last, s1, c1) && LastMaxCell(last, s2, c2)
    ensures c1 == c2 && s1 == s2
  {
  }

  /** Two answers that both end at the last maximal cell and follow its back-references are equal. */
  lemma EndsAtLastMaxUnique(rows: seq<Row>, r1: MatchResult, c1: nat, r2: MatchResult, c2: nat)
    requires EndsAtLastMax(rows, r1, c1) && EndsAtLastMax(rows, r2, c2)
    ensures r1 == r2
  {
    LastMaxCellUnique(rows[|rows| - 1], r1.score, c1, r2.score, c2);
    var cols1 :| |cols1| == |rows| && cols1[|rows| - 1] == c1 && FollowsBackRefs(rows, r1.picked, cols1);
    var cols2 :| |cols2| == |rows| && cols2[|rows| - 1] == c2 && FollowsBackRefs(rows, r2.picked, cols2);
    FollowsBackRefsUnique(rows, r1.picked, cols1, r2.picked, cols2);
  }

  /**
    The answer ends at the last cell of maximal final score of the last swept row
    (the source's `max_by_key` over that row), carries that cell's score, and lists
    the positions its back-references lead through, row by row.
   */
  ghost predicate EndsAtLastMaxOfSwept(v: Variant, choice: seq<char>, pattern: seq<char>, r: MatchResult) {
    && 0 < |pattern|
    && Swept(v, choice, pattern).Some?
    && exists c: nat :: EndsAtLastMax(Swept(v, choice, pattern).value, r, c)
  }

  /**
    The description is complete: at most one answer ends at the last maximal swept
    cell and follows its back-references, so the contracts of `FuzzyMatch` and
    `FuzzyMatchCorrected` fix their answer on every matching input.
   */
  lemma EndsAtLastMaxOfSweptUnique(v: Variant, choice: seq<char>, pattern: seq<char>, r1: MatchResult, r2: MatchResult)
    requires EndsAtLastMaxOfSwept(v, choice, pattern, r1) && EndsAtLastMaxOfSwept(v, choice, pattern, r2)
    ensures r1 == r2
  {
    var rows := Swept(v, choice, pattern).value;
    var c1: nat :| EndsAtLastMax(rows, r1, c1);
    var c2: nat :| EndsAtLastMax(rows, r2, c2);
    EndsAtLastMaxUnique(rows, r1, c1, r2, c2);
  }

  /**
    Everything after the empty-pattern check and the panic, for either reading of the
    sweep: no match exactly when the pattern is not a subsequence; otherwise the
    answer `Finish` reads off the swept rows.
   */
  function Run(v: Variant, choice: seq<char>, pattern: seq<char>): (r: MatchResult)
    requires |pattern| > 0
    ensures !r.Panicked?
    ensures r.NoMatch? <==> !IsSubsequence(choice, pattern)
    ensures r.Matched? ==> IsEmbedding(choice, pattern, r.picked)
    ensures r.Matched? ==> EndsAtLastMaxOfSwept(v, choice, pattern, r)
    ensures r.Matched? && v.Corrected? ==> r.score == PathScore(choice, pattern, r.picked)
  {
    match Swept(v, choice, pattern)
    case None => NoMatch
    case Some(rows) => Finish(v, choice, pattern, rows)
  }

  /**
    The end of `fuzzy_match`: take the last maximal cell of the last row (the source's
    `max_by_key`) and trace back from it. The positions form an embedding ending at
    that cell; with exact bookkeeping the score is the alignment's score.
   */
  function Finish(v: Variant, choice: seq<char>, pattern: seq<char>, rows: seq<Row>): (r: MatchResult)
    requires |pattern| > 0 && Layered(choice, pattern, rows) && Linked(rows) && FirstRowFresh(rows)
    requires v.Corrected? ==> ChainedRows(rows)
    ensures r.Matched? && IsEmbedding(choice, pattern, r.picked)
    ensures exists c: nat :: EndsAtLastMax(rows, r, c)
    ensures v.Corrected? ==> r.score == PathScore(choice, pattern, r.picked)
  {
    var p := |pattern| - 1;
    var last := rows[p];
    var c := LastArgMax(FinalScores(last), 0, |last|);
    TracebackEmbeds(choice, pattern, rows, p, c);
    TracebackScoreWhenCorrected(v, choice, pattern, rows, p, c);
    FinishEnds(rows, c);
    Matched(last[c].finalScore, Traceback(rows, p, c))
  }

  /** The trace from the last maximal cell of the last row, with that cell's score, ends there. */
  lemma FinishEnds(rows: seq<Row>, c: nat)
    requires 0 < |rows| && Linked(rows) && c < |rows[|rows| - 1]|
    requires IsLastMax(FinalScores(rows[|rows| - 1]), 0, |rows[|rows| - 1]|, c)
    ensures EndsAtLastMax(rows, Matched(rows[|rows| - 1][c].finalScore, Traceback(rows, |rows| - 1, c)), c)
  {
    TracebackFollows(rows, |rows| - 1, c);
  }

  /** The recovered positions of a full trace form an embedding of the pattern. */
  lemma TracebackEmbeds(choice: seq<char>, pattern: seq<char>, rows: seq<Row>, p: nat, c: nat)
    requires Layered(choice, pattern, rows) && Linked(rows)
    requires p == |rows| - 1 && c < |rows[p]|
    ensures IsEmbedding(choice, pattern, Traceback(rows, p, c))
  {
    var t := Traceback(rows, p, c);
    TracebackOccurs(rows, p, c);
    forall k | 0 <= k < |t|
      ensures -1 < t[k] < |choice| && SameLower(choice[t[k]], pattern[k])
    {
      assert Occurs(rows[k], t[k]);
      var j :| 0 <= j < |rows[k]| && rows[k][j].idx == t[k];
      assert CellsMatch(choice, pattern, k, rows[k]);
    }
  }

  lemma TracebackScoreWhenCorrected(v: Variant, choice: seq<char>, pattern: seq<char>, rows: seq<Row>, p: nat, c: nat)
    requires Layered(choice, pattern, rows) && Linked(rows) && FirstRowFresh(rows)
    requires v.Corrected? ==> ChainedRows(rows)
    requires p < |rows| && c < |rows[p]|
    ensures forall k :: 0 <= k <= p ==> Traceback(rows, p, c)[k] < |choice|
    ensures v.Corrected? ==> PathScore(choice, pattern, Traceback(rows, p, c)) == rows[p][c].finalScore
  {
    TracebackInChoice(choice, pattern, rows, p, c);
    if v.Corrected? {
      ChainExact(choice, pattern, rows, p, c);
      TracebackScore(choice, pattern, rows, p, c);
    }
  }

  /** Every position a trace visits lies inside the choice string. */
  lemma TracebackInChoice(choice: seq<char>, pattern: seq<char>, rows: seq<Row>, p: nat, c: nat)
    requires Layered(choice, pattern, rows) && Linked(rows)
    requires p < |rows| && c < |rows[p]|
    ensures forall k :: 0 <= k <= p ==> Traceback(rows, p, c)[k] < |choice|
  {
    var t := Traceback(rows, p, c);
    TracebackOccurs(rows, p, c);
    forall k | 0 <= k <= p
      ensures t[k] < |choice|
    {
      assert Occurs(rows[k], t[k]);
      var j :| 0 <= j < |rows[k]| && rows[k][j].idx == t[k];
      assert CellsMatch(choice, pattern, k, rows[k]);
    }
  }

  /**
    The bookkeeping along the back-reference chain from cell `c` of row `p` is
    exact: every cell on it is a match with its local score, the chain starts in
    row 0 with a cell whose final score is its local score, and every later cell's
    final score is its predecessor's plus the chain score.
   */
  predicate ExactChain(choice: seq<char>, pattern: seq<char>, rows: seq<Row>, p: nat, c: nat)
    decreases p
  {
    && p < |rows| && p < |pattern| && c < |rows[p]|
    && var cell := rows[p][c];
       && cell.idx < |choice|
       && cell.score == CellScore(choice, cell.idx, pattern, p)
       && (p == 0 ==> cell.finalScore == cell.score)
       && (0 < p ==> Chained(rows[p - 1], cell) && ExactChain(choice, pattern, rows, p - 1, cell.backRef))
  }

  /** Exact rows make every chain exact. */
  lemma {:induction false} ChainExact(choice: seq<char>, pattern: seq<char>, rows: seq<Row>, p: nat, c: nat)
    requires Layered(choice, pattern, rows) && ChainedRows(rows) && FirstRowFresh(rows)
    requires p < |rows| && c < |rows[p]|
    ensures ExactChain(choice, pattern, rows, p, c)
    decreases p
  {
    assert CellsMatch(choice, pattern, p, rows[p]);
    var cell := rows[p][c];
    if 0 < p {
      assert ChainedInto(rows[p - 1], rows[p]);
      assert Chained(rows[p - 1], cell);
      ChainExact(choice, pattern, rows, p - 1, cell.backRef);
      ExactChainStep(choice, pattern, rows, p, c);
    }
  }

  lemma ExactChainStep(choice: seq<char>, pattern: seq<char>, rows: seq<Row>, p: nat, c: nat)
    requires 0 < p < |rows| && p < |pattern| && c < |rows[p]|
    requires rows[p][c].idx < |choice| && rows[p][c].score == CellScore(choice, rows[p][c].idx, pattern, p)
    requires Chained(rows[p - 1], rows[p][c]) && ExactChain(choice, pattern, rows, p - 1, rows[p][c].backRef)
    ensures ExactChain(choice, pattern, rows, p, c)
  {
  }

  /**
    With exact bookkeeping, a cell's final score is the score of the alignment its
    back-references trace.
   */
  lemma {:induction false} TracebackScore(choice: seq<char>, pattern: seq<char>, rows: seq<Row>, p: nat, c: nat)
    requires Linked(rows) && ExactChain(choice, pattern, rows, p, c)
    ensures forall k :: 0 <= k <= p ==> Traceback(rows, p, c)[k] < |choice|
    ensures PathScore(choice, pattern, Traceback(rows, p, c)) == rows[p][c].finalScore
    decreases p
  {
    var t := Traceback(rows, p, c);
    var cell := rows[p][c];
    if p == 0 {
      assert t == [cell.idx];
      assert t[..0] == [];
    } else {
      var b := cell.backRef;
      var prev := rows[p - 1][b];
      var prefix := Traceback(rows, p - 1, b);
      TracebackScore(choice, pattern, rows, p - 1, b);
      assert t == prefix + [cell.idx];
      ExtendTrace(choice, pattern, prefix, cell.idx, prev.idx, prev.finalScore, cell.score, cell.finalScore);
    }
  }

  /** One step of the trace: appending a cell chained to the trace's last cell adds the chain score. */
  lemma ExtendTrace(choice: seq<char>, pattern: seq<char>, prefix: seq<nat>, x: nat,
                    prevIdx: nat, prevFinal: int, score: int, final: int)
    requires 0 < |prefix| < |pattern| && x < |choice|
    requires forall k :: 0 <= k < |prefix| ==> prefix[k] < |choice|
    requires prefix[|prefix| - 1] == prevIdx && PathScore(choice, pattern, prefix) == prevFinal
    requires score == CellScore(choice, x, pattern, |prefix|)
    requires final == prevFinal + score + GapBonus(x as int - prevIdx - 1)
    ensures forall k :: 0 <= k < |prefix + [x]| ==> (prefix + [x])[k] < |choice|
    ensures PathScore(choice, pattern, prefix + [x]) == final
  {
    PathScoreSnoc(choice, pattern, prefix, x);
  }

  /**
    `fuzzy_match` as written. An empty pattern matches with score 0 and no positions.
    The program panics exactly when the first choice character matches the first
    pattern character: row 0 then holds position 0 and `fuzzy_score` reads
    `string[0 - 1]`. Otherwise it answers `None` exactly when the pattern is not a
    case-insensitive subsequence, and on success returns a real embedding.
   */
  function FuzzyMatch(choice: seq<char>, pattern: seq<char>): (r: MatchResult)
    ensures |pattern| == 0 ==> r == Matched(0, [])
    ensures r.Panicked? <==> 0 < |pattern| && Occurs(CandidateRow(choice, pattern, 0, -1, 0), 0)
    ensures !r.Panicked? ==> (r.NoMatch? <==> !IsSubsequence(choice, pattern))
    ensures r.Matched? ==> IsEmbedding(choice, pattern, r.picked)
    ensures r.Matched? && 0 < |pattern| ==> EndsAtLastMaxOfSwept(AsWritten, choice, pattern, r)
  {
    if |pattern| == 0 then
      EmbedsNothing(choice, pattern, -1);
      Matched(0, [])
    else
      FirstRowAtZero(choice, pattern);
      if 0 < |choice| && SameLower(choice[0], pattern[0]) then Panicked
      else Run(AsWritten, choice, pattern)
  }

  /** Row 0 holds position 0 exactly when the first characters match. */
  lemma FirstRowAtZero(choice: seq<char>, pattern: seq<char>)
    requires 0 < |pattern|
    ensures Occurs(CandidateRow(choice, pattern, 0, -1, 0), 0) <==> 0 < |choice| && SameLower(choice[0], pattern[0])
  {
    CandidateRowSpec(choice, pattern, 0, -1, 0);
  }

  /**
    `fuzzy_match` with both corrections: position 0 scores without a separator bonus
    instead of panicking, and inherited cells record their real gap. It never
    panics, answers `None` exactly for non-subsequences, and the score it returns
    is the score of the alignment it returns.
   */
  function FuzzyMatchCorrected(choice: seq<char>, pattern: seq<char>): (r: MatchResult)
    ensures |pattern| == 0 ==> r == Matched(0, [])
    ensures !r.Panicked?
    ensures r.NoMatch? <==> !IsSubsequence(choice, pattern)
    ensures r.Matched? ==> IsEmbedding(choice, pattern, r.picked)
    ensures r.Matched? ==> r.score == PathScore(choice, pattern, r.picked)
    ensures r.Matched? && 0 < |pattern| ==> EndsAtLastMaxOfSwept(Corrected, choice, pattern, r)
  {
    if |pattern| == 0 then
      EmbedsNothing(choice, pattern, -1);
      Matched(0, [])
    else
      Run(Corrected, choice, pattern)
  }
}

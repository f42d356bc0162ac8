/**
  The first phase of `fuzzy_match`: one row of candidate cells per pattern
  character. Row `p` holds, in increasing order, every position of `choice`
  whose lower-cased character equals the lower-cased `pattern[p]` and which lies
  after the first position of row `p - 1`; the build stops with no result as soon
  as a row comes out empty.
 */
module MatchRows {
  import opened Wrappers
  import opened Ascii
  import opened Subsequence
  import opened Scoring

  /**
    `MatchingStatus`: a candidate cell. `idx` is the matched position in the choice
    string, `score` its local score, `finalScore` the best score of a chain of
    matches ending here, `adjNum` the number of characters skipped since the
    previous match of that chain and `backRef` that previous match's position in
    the row above.
   */
  datatype MatchingStatus = MatchingStatus(idx: nat, score: int, finalScore: int, adjNum: nat, backRef: nat)

  type Row = seq<MatchingStatus>

  /** `MatchingStatus::empty()`, the stand-in predecessor of the first cell of a row. */
  function EmptyStatus(): MatchingStatus {
    MatchingStatus(0, 0, 0, 1, 0)
  }

  predicate Increasing(row: Row) {
    forall i, j :: 0 <= i < j < |row| ==> row[i].idx < row[j].idx
  }

  /** Some cell of `row` sits at position `i`. */
  predicate Occurs(row: Row, i: nat) {
    exists k :: 0 <= k < |row| && row[k].idx == i
  }

  /** A newly pushed cell: its final score is its local score, one skipped character, back-reference 0. */
  function Fresh(choice: seq<char>, pattern: seq<char>, p: nat, i: nat): MatchingStatus
    requires i < |choice| && p < |pattern|
  {
    var s := CellScore(choice, i, pattern, p);
    MatchingStatus(i, s, s, 1, 0)
  }

  /** `c` is the cell the row builder pushes for pattern position `p` at position `c.idx`. */
  predicate IsCandidate(choice: seq<char>, pattern: seq<char>, p: nat, after: int, c: MatchingStatus) {
    && p < |pattern|
    && after < c.idx < |choice|
    && SameLower(choice[c.idx], pattern[p])
    && c == Fresh(choice, pattern, p, c.idx)
  }

  /**
    The cells the inner loop pushes while scanning `choice[i..]` for `pattern[p]`,
    keeping only positions above `after` (`prev_matched_idx`).
   */
  function CandidateRow(choice: seq<char>, pattern: seq<char>, p: nat, after: int, i: nat): Row
    requires p < |pattern| && i <= |choice|
    decreases |choice| - i
  {
    if i == |choice| then []
    else
      var rest := CandidateRow(choice, pattern, p, after, i + 1);
      if SameLower(choice[i], pattern[p]) && after < i then [Fresh(choice, pattern, p, i)] + rest else rest
  }

  /** Every cell of a candidate row scanned from `i` is one the builder may push, at or after `i`. */
  lemma {:induction false} CandidateRowCells(choice: seq<char>, pattern: seq<char>, p: nat, after: int, i: nat)
    requires p < |pattern| && i <= |choice|
    ensures forall k :: 0 <= k < |CandidateRow(choice, pattern, p, after, i)| ==>
      var c := CandidateRow(choice, pattern, p, after, i)[k];
      i <= c.idx && IsCandidate(choice, pattern, p, after, c)
    decreases |choice| - i
  {
    if i < |choice| {
      CandidateRowCells(choice, pattern, p, after, i + 1);
      var rest := CandidateRow(choice, pattern, p, after, i + 1);
      if SameLower(choice[i], pattern[p]) && after < i {
        var row := [Fresh(choice, pattern, p, i)] + rest;
        assert row == CandidateRow(choice, pattern, p, after, i);
        forall k | 0 <= k < |row|
          ensures i <= row[k].idx && IsCandidate(choice, pattern, p, after, row[k])
        {
          if 0 < k {
            assert row[k] == rest[k - 1];
          }
        }
      }
    }
  }

  /** A candidate row lists its positions in increasing order. */
  lemma {:induction false} CandidateRowIncreasing(choice: seq<char>, pattern: seq<char>, p: nat, after: int, i: nat)
    requires p < |pattern| && i <= |choice|
    ensures Increasing(CandidateRow(choice, pattern, p, after, i))
    decreases |choice| - i
  {
    if i < |choice| {
      CandidateRowIncreasing(choice, pattern, p, after, i + 1);
      CandidateRowCells(choice, pattern, p, after, i + 1);
      var rest := CandidateRow(choice, pattern, p, after, i + 1);
      if SameLower(choice[i], pattern[p]) && after < i {
        var row := [Fresh(choice, pattern, p, i)] + rest;
        assert row == CandidateRow(choice, pattern, p, after, i);
        forall a, b | 0 <= a < b < |row|
          ensures row[a].idx < row[b].idx
        {
          assert row[b] == rest[b - 1];
          if 0 < a {
            assert row[a] == rest[a - 1];
          }
        }
      }
    }
  }

  /** Every position of `choice[i..]` above `after` whose character matches `pattern[p]` has a cell in the row. */
  lemma {:induction false} CandidateRowComplete(choice: seq<char>, pattern: seq<char>, p: nat, after: int, i: nat)
    requires p < |pattern| && i <= |choice|
    ensures forall j :: i <= j < |choice| && after < j && SameLower(choice[j], pattern[p]) ==>
      Occurs(CandidateRow(choice, pattern, p, after, i), j)
    decreases |choice| - i
  {
    if i < |choice| {
      CandidateRowComplete(choice, pattern, p, after, i + 1);
      var rest := CandidateRow(choice, pattern, p, after, i + 1);
      if SameLower(choice[i], pattern[p]) && after < i {
        var row := [Fresh(choice, pattern, p, i)] + rest;
        assert row == CandidateRow(choice, pattern, p, after, i);
        forall j | i <= j < |choice| && after < j && SameLower(choice[j], pattern[p])
          ensures Occurs(row, j)
        {
          if j == i {
            assert row[0].idx == i;
          } else {
            var k :| 0 <= k < |rest| && rest[k].idx == j;
            assert row[k + 1] == rest[k];
          }
        }
      }
    }
  }

  /**
    A candidate row is increasing, holds only cells the builder may push, and
    holds one for every position of `choice[i..]` above `after` whose character
    matches `pattern[p]`.
   */
  lemma CandidateRowSpec(choice: seq<char>, pattern: seq<char>, p: nat, after: int, i: nat)
    requires p < |pattern| && i <= |choice|
    ensures var row := CandidateRow(choice, pattern, p, after, i);
      && Increasing(row)
      && (forall k :: 0 <= k < |row| ==> i <= row[k].idx && IsCandidate(choice, pattern, p, after, row[k]))
      && (forall j :: i <= j < |choice| && after < j && SameLower(choice[j], pattern[p]) ==> Occurs(row, j))
  {
    CandidateRowIncreasing(choice, pattern, p, after, i);
    CandidateRowCells(choice, pattern, p, after, i);
    CandidateRowComplete(choice, pattern, p, after, i);
  }

  /** Every cell of an increasing row sits at or above the row's first position. */
  lemma OccursAtOrAboveHead(row: Row, j: nat)
    requires Increasing(row)
    ensures Occurs(row, j) ==> row[0].idx <= j
  {
    if Occurs(row, j) {
      var k :| 0 <= k < |row| && row[k].idx == j;
      assert k == 0 || row[0].idx < row[k].idx;
    }
  }

  /**
    A candidate row is empty exactly when `pattern[p]` does not occur after `after`,
    and otherwise its first cell is the earliest such occurrence.
   */
  lemma RowHead(choice: seq<char>, pattern: seq<char>, p: nat, after: int)
    requires p < |pattern|
    ensures var row := CandidateRow(choice, pattern, p, after, 0);
      && (row == [] <==> forall j :: 0 <= j < |choice| && after < j ==> !SameLower(choice[j], pattern[p]))
      && (row != [] ==> IsCandidate(choice, pattern, p, after, row[0]))
      && (row != [] ==> forall j :: 0 <= j < |choice| && j < row[0].idx && after < j ==> !SameLower(choice[j], pattern[p]))
  {
    CandidateRowSpec(choice, pattern, p, after, 0);
    var row := CandidateRow(choice, pattern, p, after, 0);
    if row != [] {
      assert IsCandidate(choice, pattern, p, after, row[0]);
      forall j | 0 <= j < |choice| && j < row[0].idx && after < j
        ensures !SameLower(choice[j], pattern[p])
      {
        OccursAtOrAboveHead(row, j);
      }
    }
  }

  /** `prev_matched_idx` when row `p` is built: -1 for the first row, else the first position of row `p - 1`. */
  function LowerBound(rows: seq<Row>, p: nat): int
    requires p <= |rows| && (0 < p ==> |rows[p - 1]| > 0)
  {
    if p == 0 then -1 else rows[p - 1][0].idx
  }

  /** `rows` are the first `|rows|` rows the builder produces, none of them empty. */
  predicate CandidateRows(choice: seq<char>, pattern: seq<char>, rows: seq<Row>) {
    && |rows| <= |pattern|
    && (forall p :: 0 <= p < |rows| ==> |rows[p]| > 0)
    && (forall p :: 0 <= p < |rows| ==> rows[p] == CandidateRow(choice, pattern, p, LowerBound(rows, p), 0))
  }

  /**
    The row-building loop, continued from the rows built so far. It gives no rows
    exactly when the rest of the pattern cannot be embedded after the first
    position of the last row built.
   */
  function Build(choice: seq<char>, pattern: seq<char>, rows: seq<Row>): (r: Option<seq<Row>>)
    requires CandidateRows(choice, pattern, rows)
    ensures r.Some? ==> |r.value| == |pattern| && CandidateRows(choice, pattern, r.value)
    ensures r.None? <==> !EmbedsAfter(choice, pattern, |rows|, LowerBound(rows, |rows|))
    decreases |pattern| - |rows|
  {
    if |rows| == |pattern| then
      EmbedsNothing(choice, pattern, LowerBound(rows, |rows|));
      Some(rows)
    else
      var row := CandidateRow(choice, pattern, |rows|, LowerBound(rows, |rows|), 0);
      BuildStep(choice, pattern, rows);
      if row == [] then None else Build(choice, pattern, rows + [row])
  }

  /**
    One pass of the row-building loop: an empty row means the rest of the pattern
    cannot embed, and otherwise the extended rows are still the builder's rows and
    the rest embeds after the old bound exactly when it embeds after the new one.
   */
  lemma BuildStep(choice: seq<char>, pattern: seq<char>, rows: seq<Row>)
    requires CandidateRows(choice, pattern, rows) && |rows| < |pattern|
    ensures var after := LowerBound(rows, |rows|);
      var row := CandidateRow(choice, pattern, |rows|, after, 0);
      && (row == [] ==> !EmbedsAfter(choice, pattern, |rows|, after))
      && (row != [] ==>
            && CandidateRows(choice, pattern, rows + [row])
            && LowerBound(rows + [row], |rows| + 1) == row[0].idx
            && (EmbedsAfter(choice, pattern, |rows|, after) <==> EmbedsAfter(choice, pattern, |rows| + 1, row[0].idx)))
  {
    var after := LowerBound(rows, |rows|);
    var row := CandidateRow(choice, pattern, |rows|, after, 0);
    RowHead(choice, pattern, |rows|, after);
    if row == [] {
      NoOccurrence(choice, pattern, |rows|, after);
    } else {
      GreedyStep(choice, pattern, |rows|, after, row[0].idx);
      ExtendCandidateRows(choice, pattern, rows, row);
    }
  }

  lemma ExtendCandidateRows(choice: seq<char>, pattern: seq<char>, rows: seq<Row>, row: Row)
    requires CandidateRows(choice, pattern, rows) && |rows| < |pattern|
    requires row == CandidateRow(choice, pattern, |rows|, LowerBound(rows, |rows|), 0) && row != []
    ensures CandidateRows(choice, pattern, rows + [row])
  {
    var more := rows + [row];
    forall p | 0 <= p <= |rows|
      ensures 0 < p ==> more[p - 1] == rows[p - 1]
      ensures LowerBound(more, p) == LowerBound(rows, p)
    {
    }
    forall p | 0 <= p < |more|
      ensures |more[p]| > 0
      ensures more[p] == CandidateRow(choice, pattern, p, LowerBound(more, p), 0)
    {
      if p < |rows| {
        assert more[p] == rows[p];
      }
    }
  }

  /** All rows for `pattern`, or no rows when some pattern character finds no candidate. */
  function Rows(choice: seq<char>, pattern: seq<char>): (r: Option<seq<Row>>)
    ensures r.Some? ==> |r.value| == |pattern| && CandidateRows(choice, pattern, r.value)
    ensures r.None? <==> !IsSubsequence(choice, pattern)
  {
    Build(choice, pattern, [])
  }

  /** Cells of row `q` sit on characters matching `pattern[q]` and carry their local scores. */
  predicate CellsMatch(choice: seq<char>, pattern: seq<char>, q: nat, row: Row) {
    && q < |pattern|
    && forall j :: 0 <= j < |row| ==>
         && row[j].idx < |choice|
         && SameLower(choice[row[j].idx], pattern[q])
         && row[j].score == CellScore(choice, row[j].idx, pattern, q)
  }

  predicate Above(row: Row, bound: int) {
    forall j :: 0 <= j < |row| ==> bound < row[j].idx
  }

  /** Non-empty increasing rows, each lying wholly above the first position of the row before. */
  predicate Stacked(rows: seq<Row>) {
    && (forall q :: 0 <= q < |rows| ==> |rows[q]| > 0 && Increasing(rows[q]))
    && (forall q :: 0 < q < |rows| ==> Above(rows[q], rows[q - 1][0].idx))
  }

  /** The shape the dynamic program needs, and keeps. */
  predicate Layered(choice: seq<char>, pattern: seq<char>, rows: seq<Row>) {
    && |rows| == |pattern|
    && Stacked(rows)
    && forall q :: 0 <= q < |rows| ==> CellsMatch(choice, pattern, q, rows[q])
  }

  /** Cells of the first row are never updated: their final score is their local score. */
  predicate FirstRowFresh(rows: seq<Row>) {
    |rows| > 0 ==> forall j :: 0 <= j < |rows[0]| ==> rows[0][j].finalScore == rows[0][j].score
  }

  /**
    The built rows are increasing, each lies above the first position of the row
    before (row 0 may start at position 0), every cell sits on a matching
    character with its local score, and every cell is fresh.
   */
  lemma {:induction false} BuiltRowsLayered(choice: seq<char>, pattern: seq<char>, rows: seq<Row>)
    requires CandidateRows(choice, pattern, rows) && |rows| == |pattern|
    ensures Layered(choice, pattern, rows)
    ensures FirstRowFresh(rows)
    ensures forall q, j :: 0 <= q < |rows| && 0 <= j < |rows[q]| ==> rows[q][j].finalScore == rows[q][j].score
    ensures forall q :: 0 < q < |rows| ==> forall j :: 0 <= j < |rows[q]| ==> 0 < rows[q][j].idx
  {
    forall q | 0 <= q < |rows|
      ensures |rows[q]| > 0 && Increasing(rows[q])
      ensures CellsMatch(choice, pattern, q, rows[q])
      ensures 0 < q ==> Above(rows[q], rows[q - 1][0].idx)
      ensures forall j :: 0 <= j < |rows[q]| ==> rows[q][j].finalScore == rows[q][j].score
    {
      CandidateRowSpec(choice, pattern, q, LowerBound(rows, q), 0);
    }
  }
}

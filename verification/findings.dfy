/**
  Two inputs on which `fuzzy_match` as written departs from what it evidently
  intends, each set against the corrected matcher.
 */
module MatcherFindings {
  import opened Wrappers
  import opened Ascii
  import opened Subsequence
  import opened Scoring
  import opened MatchRows
  import opened MatchSweep
  import opened FuzzyMatcher

  /**
    Matching "London" against itself, the case the source's own unit test uses,
    panics: row 0 holds position 0 and the local score reads the character before it.
    The corrected matcher returns the only possible embedding, every position in
    order, scored 10 for the exact upper-case 'L' and 10 - 1 for each of the five
    adjacent lower-case matches.
   */
  lemma LondonPanics()
    ensures FuzzyMatch("London", "London") == Panicked
  {
    var s := "London";
    assert SameLower(s[0], s[0]);
  }

  lemma LondonCorrected(s: seq<char>)
    requires s == "London"
    ensures FuzzyMatchCorrected(s, s) == Matched(55, [0, 1, 2, 3, 4, 5])
  {
    var r := FuzzyMatchCorrected(s, s);
    SelfMatch(s);
    SixInOrder(r.picked);
    LondonScore(s);
  }

  lemma SixInOrder(e: seq<nat>)
    requires e == seq(6, k => k)
    ensures e == [0, 1, 2, 3, 4, 5]
  {
    assert e[0] == 0 && e[1] == 1 && e[2] == 2 && e[3] == 3 && e[4] == 4 && e[5] == 5;
  }

  /** A string matched against itself aligns every character with itself. */
  lemma SelfMatch(s: seq<char>)
    ensures FuzzyMatchCorrected(s, s).Matched?
    ensures FuzzyMatchCorrected(s, s).picked == seq(|s|, k => k)
  {
    var e: seq<nat> := seq(|s|, k => k);
    assert IsEmbedding(s, s, e);
    var r := FuzzyMatchCorrected(s, s);
    OnlyEmbeddingOfItself(s, r.picked);
  }

  /** The alignment of "London" with itself scores 10 for the 'L' and 9 for each later letter. */
  lemma LondonScore(s: seq<char>)
    requires |s| == 6 && s[0] == 'L' && s[1] == 'o' && s[2] == 'n' && s[3] == 'd' && s[4] == 'o' && s[5] == 'n'
    ensures PathScore(s, s, [0, 1, 2, 3, 4, 5]) == 55
  {
    assert PathScore(s, s, [0]) == 10 by {
      assert [0][..0] == [];
    }
    AdjacentLowerStep(s, [0], 1, 10);
    assert [0] + [1] == [0, 1];
    AdjacentLowerStep(s, [0, 1], 2, 19);
    assert [0, 1] + [2] == [0, 1, 2];
    AdjacentLowerStep(s, [0, 1, 2], 3, 28);
    assert [0, 1, 2] + [3] == [0, 1, 2, 3];
    AdjacentLowerStep(s, [0, 1, 2, 3], 4, 37);
    assert [0, 1, 2, 3] + [4] == [0, 1, 2, 3, 4];
    AdjacentLowerStep(s, [0, 1, 2, 3, 4], 5, 46);
    assert [0, 1, 2, 3, 4] + [5] == [0, 1, 2, 3, 4, 5];
  }

  /**
    Matching a lower-case letter with itself right after the previous match, with no
    separator before it, adds 9: the case term -1 and the adjacency bonus 10.
   */
  lemma AdjacentLowerStep(s: seq<char>, prefix: seq<nat>, x: nat, score: int)
    requires 0 < |prefix| == x < |s| && prefix[x - 1] == x - 1
    requires forall k :: 0 <= k < |prefix| ==> prefix[k] < |s|
    requires !IsUpper(s[x]) && !IsSeparator(s[x - 1])
    requires PathScore(s, s, prefix) == score
    ensures forall k :: 0 <= k < |prefix + [x]| ==> (prefix + [x])[k] < |s|
    ensures PathScore(s, s, prefix + [x]) == score + 9
  {
    PathScoreSnoc(s, s, prefix, x);
  }

  /** The only embedding of a string into a string of the same length is the identity. */
  lemma {:induction false} OnlyEmbeddingOfItself(s: seq<char>, e: seq<nat>)
    requires IsEmbedding(s, s, e)
    ensures forall k :: 0 <= k < |e| ==> e[k] == k
  {
    forall k | 0 <= k < |e|
      ensures e[k] == k
    {
      EmbeddingBounds(s, s, e, k);
    }
  }

  /** The `k`-th position of an embedding leaves room for the `k` before it and the rest after it. */
  lemma {:induction false} EmbeddingBounds(choice: seq<char>, pattern: seq<char>, e: seq<nat>, k: nat)
    requires IsEmbedding(choice, pattern, e) && k < |e|
    ensures k <= e[k] && e[k] + (|e| - k) <= |choice|
    decreases |e| - k
  {
    if 0 < k {
      EmbeddingLower(choice, pattern, e, k);
    }
    EmbeddingUpper(choice, pattern, e, k);
  }

  lemma {:induction false} EmbeddingLower(choice: seq<char>, pattern: seq<char>, e: seq<nat>, k: nat)
    requires IsEmbedding(choice, pattern, e) && k < |e|
    ensures k <= e[k]
    decreases k
  {
    if 0 < k {
      EmbeddingLower(choice, pattern, e, k - 1);
      assert e[k - 1] < e[k];
    }
  }

  lemma {:induction false} EmbeddingUpper(choice: seq<char>, pattern: seq<char>, e: seq<nat>, k: nat)
    requires IsEmbedding(choice, pattern, e) && k < |e|
    ensures e[k] + (|e| - k) <= |choice|
    decreases |e| - k
  {
    if k + 1 < |e| {
      EmbeddingUpper(choice, pattern, e, k + 1);
      assert e[k] < e[k + 1];
    }
  }

  /**
    On "_Axbab_B" with pattern "AB" the cell for the 'b' at position 5 inherits the
    chain from the 'A' at position 1 but keeps the skip count 0 of the chain it
    rejected; the 'B' at position 7 then inherits from it and loses the adjacency
    bonus a second time. The matcher as written returns positions 1 and 7 with
    score 10, although that alignment scores 12 + 18 - 2 * 5 = 20. The corrected
    matcher always reports the score of the alignment it returns (`StaleGapCorrected`).
   */
  lemma StaleGapCounterexample()
    ensures FuzzyMatch("_Axbab_B", "AB") == Matched(10, [1, 7])
    ensures PathScore("_Axbab_B", "AB", [1, 7]) == 20
  {
    StaleAsWritten();
    StaleGapAlignmentScore();
  }

  lemma StaleGapAlignmentScore()
    ensures PathScore("_Axbab_B", "AB", [1, 7]) == 20
  {
    var s, p := "_Axbab_B", "AB";
    assert PathScore(s, p, [1]) == 12;
    PathScoreSnoc(s, p, [1], 7);
    assert [1] + [7] == [1, 7];
  }

  /** On the same input the corrected matcher finds an alignment and reports its true score. */
  lemma StaleGapCorrected()
    ensures FuzzyMatchCorrected("_Axbab_B", "AB").Matched?
    ensures FuzzyMatchCorrected("_Axbab_B", "AB").score
         == PathScore("_Axbab_B", "AB", FuzzyMatchCorrected("_Axbab_B", "AB").picked)
  {
    var s, p := "_Axbab_B", "AB";
    assert IsEmbedding(s, p, [1, 7]);
  }

  /** The whole as-written run on the example: the last cell of the last row wins and traces back to the 'A'. */
  lemma StaleAsWritten()
    ensures FuzzyMatch("_Axbab_B", "AB") == Matched(10, [1, 7])
  {
    StaleRunAsWritten();
    assert !SameLower('_', 'A');
  }

  /** Past the first-row check, the as-written run on the example. */
  lemma StaleRunAsWritten()
    ensures Run(AsWritten, "_Axbab_B", "AB") == Matched(10, [1, 7])
  {
    var row0 := [MatchingStatus(1, 12, 12, 1, 0), MatchingStatus(4, -19, -19, 1, 0)];
    var out := [MatchingStatus(3, -1, 9, 1, 0), MatchingStatus(5, -1, 5, 0, 0), MatchingStatus(7, 18, 10, 0, 0)];
    StaleSweptAsWritten();
    FinishOfTwo(AsWritten, "_Axbab_B", "AB", [row0, out]);
  }

  /**
    With two rows whose last row has three cells and a final score in the last cell
    no smaller than the others, the run ends at that cell and its back-referenced cell.
   */
  lemma FinishOfTwo(v: Variant, choice: seq<char>, pattern: seq<char>, rows: seq<Row>)
    requires |pattern| == 2 && Layered(choice, pattern, rows) && Linked(rows) && FirstRowFresh(rows)
    requires v.Corrected? ==> ChainedRows(rows)
    requires |rows[1]| == 3
    requires rows[1][0].finalScore <= rows[1][2].finalScore && rows[1][1].finalScore <= rows[1][2].finalScore
    ensures rows[1][2].backRef < |rows[0]|
    ensures Finish(v, choice, pattern, rows) == Matched(rows[1][2].finalScore, [rows[0][rows[1][2].backRef].idx, rows[1][2].idx])
  {
    var keys := FinalScores(rows[1]);
    LastOfThree(keys);
    TracebackOfTwo(rows, 2);
  }

  /** `max_by_key` over three keys whose last is no smaller than the others picks the last. */
  lemma LastOfThree(keys: seq<int>)
    requires |keys| == 3 && keys[0] <= keys[2] && keys[1] <= keys[2]
    ensures LastArgMax(keys, 0, 3) == 2
  {
  }

  /** The swept rows of the example: the 'b' at 5 and the 'B' at 7 both carry a skip count of 0. */
  lemma StaleSweptAsWritten()
    ensures Swept(AsWritten, "_Axbab_B", "AB") == Some([
      [MatchingStatus(1, 12, 12, 1, 0), MatchingStatus(4, -19, -19, 1, 0)],
      [MatchingStatus(3, -1, 9, 1, 0), MatchingStatus(5, -1, 5, 0, 0), MatchingStatus(7, 18, 10, 0, 0)]])
  {
    var row0 := [MatchingStatus(1, 12, 12, 1, 0), MatchingStatus(4, -19, -19, 1, 0)];
    var row1 := [MatchingStatus(3, -1, -1, 1, 0), MatchingStatus(5, -1, -1, 1, 0), MatchingStatus(7, 18, 18, 1, 0)];
    var out := [MatchingStatus(3, -1, 9, 1, 0), MatchingStatus(5, -1, 5, 0, 0), MatchingStatus(7, 18, 10, 0, 0)];
    StaleRows();
    StaleCellsAsWritten();
    SweepTwoRows(AsWritten, row0, row1, out[0], out[1], out[2]);
    assert [out[0], out[1], out[2]] == out;
  }

  /** The candidate rows of the example: 'A'/'a' at 1 and 4, then 'B'/'b' after position 1. */
  lemma StaleRows()
    ensures Rows("_Axbab_B", "AB") == Some([
      [MatchingStatus(1, 12, 12, 1, 0), MatchingStatus(4, -19, -19, 1, 0)],
      [MatchingStatus(3, -1, -1, 1, 0), MatchingStatus(5, -1, -1, 1, 0), MatchingStatus(7, 18, 18, 1, 0)]])
  {
    var s, p := "_Axbab_B", "AB";
    var row0 := [MatchingStatus(1, 12, 12, 1, 0), MatchingStatus(4, -19, -19, 1, 0)];
    var row1 := [MatchingStatus(3, -1, -1, 1, 0), MatchingStatus(5, -1, -1, 1, 0), MatchingStatus(7, 18, 18, 1, 0)];
    StaleRowA();
    StaleRowB();
    BuildTwo(s, p, row0, row1);
  }

  /**
    With a two-character pattern, two non-empty rows built in turn (the second above
    the first row's first position) are the builder's whole answer.
   */
  lemma BuildTwo(choice: seq<char>, pattern: seq<char>, row0: Row, row1: Row)
    requires |pattern| == 2 && row0 != [] && row1 != []
    requires CandidateRow(choice, pattern, 0, -1, 0) == row0
    requires CandidateRow(choice, pattern, 1, row0[0].idx, 0) == row1
    ensures Rows(choice, pattern) == Some([row0, row1])
  {
    assert CandidateRows(choice, pattern, []);
    assert LowerBound([], 0) == -1 && [] + [row0] == [row0];
    assert CandidateRows(choice, pattern, [row0]) by {
      assert [row0][0] == row0;
    }
    assert LowerBound([row0], 1) == row0[0].idx && [row0] + [row1] == [row0, row1];
    assert CandidateRows(choice, pattern, [row0, row1]) by {
      assert LowerBound([row0, row1], 1) == row0[0].idx;
    }
    assert Build(choice, pattern, [row0, row1]) == Some([row0, row1]);
    assert Build(choice, pattern, [row0]) == Some([row0, row1]);
  }

  /** Row 0 of the example: the 'A' at 1 and the 'a' at 4, with their leading penalties. */
  lemma StaleRowA()
    ensures CandidateRow("_Axbab_B", "AB", 0, -1, 0) == [MatchingStatus(1, 12, 12, 1, 0), MatchingStatus(4, -19, -19, 1, 0)]
  {
  }

  /** Row 1 of the example: the 'b' at 3, the 'b' at 5 and the 'B' at 7, all after position 1. */
  lemma StaleRowB()
    ensures CandidateRow("_Axbab_B", "AB", 1, 1, 0)
         == [MatchingStatus(3, -1, -1, 1, 0), MatchingStatus(5, -1, -1, 1, 0), MatchingStatus(7, 18, 18, 1, 0)]
  {
  }

  /** The three cell updates of the example's second row. */
  lemma StaleCellsAsWritten()
    ensures UpdateCell(AsWritten, [MatchingStatus(1, 12, 12, 1, 0), MatchingStatus(4, -19, -19, 1, 0)],
      MatchingStatus(3, -1, -1, 1, 0), EmptyStatus(), 0) == MatchingStatus(3, -1, 9, 1, 0)
    ensures UpdateCell(AsWritten, [MatchingStatus(1, 12, 12, 1, 0), MatchingStatus(4, -19, -19, 1, 0)],
      MatchingStatus(5, -1, -1, 1, 0), MatchingStatus(3, -1, 9, 1, 0), 1) == MatchingStatus(5, -1, 5, 0, 0)
    ensures UpdateCell(AsWritten, [MatchingStatus(1, 12, 12, 1, 0), MatchingStatus(4, -19, -19, 1, 0)],
      MatchingStatus(7, 18, 18, 1, 0), MatchingStatus(5, -1, 5, 0, 0), 2) == MatchingStatus(7, 18, 10, 0, 0)
  {
    var row0 := [MatchingStatus(1, 12, 12, 1, 0), MatchingStatus(4, -19, -19, 1, 0)];
    assert TakeWhileBelow(row0, 5, 0) == 2;
    assert SkipWhileBelow(row0, 3, 0, 2) == 1;
    assert LastArgMax(ChainKeys(row0, MatchingStatus(5, -1, -1, 1, 0)), 1, 2) == 1;
  }

  /** Sweeping a row of three cells below a single row, given the three cell updates. */
  lemma SweepTwoRows(v: Variant, row0: Row, row1: Row, c0: MatchingStatus, c1: MatchingStatus, c2: MatchingStatus)
    requires |row0| > 0 && Increasing(row0) && Increasing(row1) && Above(row1, row0[0].idx) && |row1| == 3
    requires UpdateCell(v, row0, row1[0], EmptyStatus(), 0) == c0
    requires UpdateCell(v, row0, row1[1], c0, 1) == c1
    requires UpdateCell(v, row0, row1[2], c1, 2) == c2
    ensures Stacked([row0, row1]) && Sweep(v, [row0, row1]) == [row0, [c0, c1, c2]]
  {
    SweepThreeCells(v, row0, row1, c0, c1, c2);
    SweepOfTwo(v, row0, row1);
  }

  /** The in-place loop over a row of three cells, given the three cell updates. */
  lemma SweepThreeCells(v: Variant, cur: Row, row: Row, c0: MatchingStatus, c1: MatchingStatus, c2: MatchingStatus)
    requires |cur| > 0 && Increasing(cur) && Increasing(row) && Above(row, cur[0].idx) && |row| == 3
    requires UpdateCell(v, cur, row[0], EmptyStatus(), 0) == c0
    requires UpdateCell(v, cur, row[1], c0, 1) == c1
    requires UpdateCell(v, cur, row[2], c1, 2) == c2
    ensures SweepRow(v, cur, row, |row|) == [c0, c1, c2]
  {
    SweepTwoCells(v, cur, row, c0, c1);
    assert c1.idx == row[1].idx < row[2].idx;
    SweepRowNext(v, cur, row, 3, [c0, c1], c1, c2);
    assert [c0, c1] + [c2] == [c0, c1, c2];
  }

  /** The first two steps of the in-place loop, given the two cell updates. */
  lemma SweepTwoCells(v: Variant, cur: Row, row: Row, c0: MatchingStatus, c1: MatchingStatus)
    requires |cur| > 0 && Increasing(cur) && Increasing(row) && Above(row, cur[0].idx) && 2 <= |row|
    requires UpdateCell(v, cur, row[0], EmptyStatus(), 0) == c0
    requires c0.idx < row[1].idx && BackRefOk(cur, c0)
    requires UpdateCell(v, cur, row[1], c0, 1) == c1
    ensures SweepRow(v, cur, row, 2) == [c0, c1]
  {
    SweepRowFirst(v, cur, row, c0);
    SweepRowNext(v, cur, row, 2, [c0], c0, c1);
    assert [c0] + [c1] == [c0, c1];
  }

  /** The in-place loop's first step updates the first cell from an empty left neighbour. */
  lemma SweepRowFirst(v: Variant, cur: Row, row: Row, c: MatchingStatus)
    requires |cur| > 0 && Increasing(cur) && Increasing(row) && Above(row, cur[0].idx) && 0 < |row|
    requires UpdateCell(v, cur, row[0], EmptyStatus(), 0) == c
    ensures SweepRow(v, cur, row, 1) == [c]
  {
    assert SweepRow(v, cur, row, 0) == [];
  }

  /** A later step of the in-place loop updates cell `k - 1` from the already-updated cell before it. */
  lemma SweepRowNext(v: Variant, cur: Row, row: Row, k: nat, done: Row, prev: MatchingStatus, c: MatchingStatus)
    requires |cur| > 0 && Increasing(cur) && Increasing(row) && Above(row, cur[0].idx) && 1 < k <= |row|
    requires SweepRow(v, cur, row, k - 1) == done && done[k - 2] == prev
    requires prev.idx < row[k - 1].idx && BackRefOk(cur, prev)
    requires UpdateCell(v, cur, row[k - 1], prev, k - 1) == c
    ensures SweepRow(v, cur, row, k) == done + [c]
  {
  }

  /** Sweeping two rows updates the second from the first. */
  lemma SweepOfTwo(v: Variant, row0: Row, row1: Row)
    requires |row0| > 0 && |row1| > 0 && Increasing(row0) && Increasing(row1) && Above(row1, row0[0].idx)
    ensures Stacked([row0, row1])
    ensures Sweep(v, [row0, row1]) == [row0, SweepRow(v, row0, row1, |row1|)]
  {
    assert Stacked([row0, row1]);
    var rows := [row0, row1];
    assert rows[0] == row0 && rows[1..] == [row1];
    var out := SweepRow(v, row0, row1, |row1|);
    assert [row0] + [out] == [row0, out];
    assert [row1][1..] == [];
  }

  /** With two rows the trace is the back-referenced cell of row 0 followed by the chosen cell. */
  lemma TracebackOfTwo(rows: seq<Row>, c: nat)
    requires |rows| == 2 && Linked(rows) && c < |rows[1]|
    ensures rows[1][c].backRef < |rows[0]|
    ensures Traceback(rows, 1, c) == [rows[0][rows[1][c].backRef].idx, rows[1][c].idx]
  {
    assert BackRefOk(rows[0], rows[1][c]);
  }
}

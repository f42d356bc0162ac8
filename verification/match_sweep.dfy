/**
  The second phase of `fuzzy_match`: a left-to-right sweep over the rows. Each
  row is updated in place, cell by cell, from the already-updated row above it:
  a cell either chains directly to a cell of the row above (the best one, the
  last on ties, among those between the previous cell's position and its own)
  or inherits the predecessor of the cell before it in its own row.
 */
module MatchSweep {
  import opened Scoring
  import opened MatchRows

  /**
    The two readings of the update. `AsWritten` follows the source; `Corrected`
    records, on an inherited cell, the number of characters actually skipped since
    the inherited predecessor instead of a stale count.
   */
  datatype Variant = AsWritten | Corrected

  /** The final score of chaining `next` directly after `cur`. */
  function ChainScore(cur: MatchingStatus, next: MatchingStatus): int {
    cur.finalScore + next.score + GapBonus(next.idx as int - cur.idx - 1)
  }

  /**
    `take_while(idx < bound)` over the row from position `i`: the end of the
    longest run of cells below `bound`.
   */
  function TakeWhileBelow(cur: Row, bound: nat, i: nat): (hi: nat)
    requires i <= |cur|
    ensures i <= hi <= |cur|
    ensures forall j :: i <= j < hi ==> cur[j].idx < bound
    ensures hi < |cur| ==> bound <= cur[hi].idx
    decreases |cur| - i
  {
    if i == |cur| || bound <= cur[i].idx then i else TakeWhileBelow(cur, bound, i + 1)
  }

  /** `skip_while(idx < bound)` over positions `i..hi`: where the yielded cells begin. */
  function SkipWhileBelow(cur: Row, bound: nat, i: nat, hi: nat): (lo: nat)
    requires i <= hi <= |cur|
    ensures i <= lo <= hi
    ensures forall j :: i <= j < lo ==> cur[j].idx < bound
    ensures lo < hi ==> bound <= cur[lo].idx
    decreases hi - i
  {
    if i == hi || bound <= cur[i].idx then i else SkipWhileBelow(cur, bound, i + 1, hi)
  }

  /** `b` holds a maximum of `keys[lo..hi]` and every later position holds strictly less. */
  predicate IsLastMax(keys: seq<int>, lo: nat, hi: nat, b: nat) {
    && lo <= b < hi <= |keys|
    && (forall j :: lo <= j < hi ==> keys[j] <= keys[b])
    && (forall j :: b < j < hi ==> keys[j] < keys[b])
  }

  /** `Iterator::max_by_key` over `keys[lo..hi]`: on ties the last maximum wins. */
  function LastArgMax(keys: seq<int>, lo: nat, hi: nat): (b: nat)
    requires lo < hi <= |keys|
    ensures IsLastMax(keys, lo, hi, b)
    decreases hi - lo
  {
    if lo + 1 == hi then lo
    else
      var b := LastArgMax(keys, lo, hi - 1);
      if keys[b] <= keys[hi - 1] then hi - 1 else b
  }

  function ChainKeys(cur: Row, next: MatchingStatus): (keys: seq<int>)
    ensures |keys| == |cur|
    ensures forall j :: 0 <= j < |cur| ==> keys[j] == ChainScore(cur[j], next)
  {
    seq(|cur|, j requires 0 <= j < |cur| => ChainScore(cur[j], next))
  }

  /** `c`'s back-reference is a valid position of `cur` holding a cell strictly to the left of `c`. */
  predicate BackRefOk(cur: Row, c: MatchingStatus) {
    c.backRef < |cur| && cur[c.backRef].idx < c.idx
  }

  /**
    `c`'s bookkeeping is exact: `adjNum` counts the characters skipped since its
    predecessor and `finalScore` is the predecessor's final score plus the chain score.
   */
  predicate Chained(cur: Row, c: MatchingStatus) {
    && BackRefOk(cur, c)
    && c.adjNum == c.idx - cur[c.backRef].idx - 1
    && c.finalScore == ChainScore(cur[c.backRef], c)
  }

  /** The end of the window: `take_while` keeps the cells of `cur` left of `next`. */
  function WindowHi(cur: Row, next: MatchingStatus): (hi: nat)
    ensures hi <= |cur|
    ensures hi < |cur| ==> next.idx <= cur[hi].idx
  {
    TakeWhileBelow(cur, next.idx, 0)
  }

  /** The start of the window: `skip_while` drops the cells of `cur` left of `prev`. */
  function WindowLo(cur: Row, prev: MatchingStatus, next: MatchingStatus): (lo: nat)
    ensures lo <= WindowHi(cur, next)
    ensures lo < WindowHi(cur, next) ==> prev.idx <= cur[lo].idx
  {
    SkipWhileBelow(cur, prev.idx, 0, WindowHi(cur, next))
  }

  /** Every cell kept by `take_while` lies left of `next`. */
  lemma BelowNext(cur: Row, next: MatchingStatus, j: nat)
    requires j < WindowHi(cur, next)
    ensures cur[j].idx < next.idx
  {
  }

  /** Position `j` of `cur` is a direct predecessor candidate for `next`. */
  predicate InWindow(cur: Row, prev: MatchingStatus, next: MatchingStatus, j: int) {
    WindowLo(cur, prev, next) <= j < WindowHi(cur, next)
  }

  /**
    `score_before_idx`: the final score `next` gets by inheriting the predecessor of
    its left neighbour `prev`, undoing `prev`'s own local score and adjacency bonus.
    The source computes `next.idx - prev.idx` in `usize`, which never underflows
    because `prev` lies left of `next`.
   */
  function InheritedScore(prev: MatchingStatus, next: MatchingStatus): int
    requires prev.idx <= next.idx
  {
    prev.finalScore - prev.score + next.score + PenaltyUnmatched * (next.idx - prev.idx)
      - (if prev.adjNum == 0 then BonusAdjacency else 0)
  }

  /** `r` chains directly to the window's best candidate, the last one on ties. */
  predicate ChoseBest(cur: Row, prev: MatchingStatus, next: MatchingStatus, r: MatchingStatus) {
    && WindowLo(cur, prev, next) < WindowHi(cur, next)
    && IsLastMax(ChainKeys(cur, next), WindowLo(cur, prev, next), WindowHi(cur, next), r.backRef)
    && r.finalScore == ChainScore(cur[r.backRef], next)
  }

  /** `r`, not the first cell of its row, takes over the predecessor of its left neighbour `prev`. */
  predicate Inherits(prev: MatchingStatus, next: MatchingStatus, k: nat, r: MatchingStatus) {
    && 0 < k && prev.idx <= next.idx
    && r.backRef == prev.backRef
    && r.finalScore == InheritedScore(prev, next)
  }

  /**
    The choice the update makes: `r`'s final score is at least every direct chain in
    the window and, after the first cell, at least the inherited score; `r` either
    chains to the window's last best candidate or inherits; it chains directly
    whenever some direct chain scores at least the inherited score (always, for the
    first cell); and a direct chain records its real skip count.
   */
  ghost predicate PicksBest(cur: Row, prev: MatchingStatus, next: MatchingStatus, k: nat, r: MatchingStatus) {
    && prev.idx <= next.idx
    && (forall j :: InWindow(cur, prev, next, j) ==> ChainScore(cur[j], next) <= r.finalScore)
    && (0 < k ==> InheritedScore(prev, next) <= r.finalScore)
    && (ChoseBest(cur, prev, next, r) || Inherits(prev, next, k, r))
    && (forall j ::
          (InWindow(cur, prev, next, j) && (k == 0 || InheritedScore(prev, next) <= ChainScore(cur[j], next)))
          ==> ChoseBest(cur, prev, next, r))
    && (ChoseBest(cur, prev, next, r) ==> r.adjNum == next.idx - cur[r.backRef].idx - 1)
  }

  /**
    The update of one cell `next` at position `k` of its row, with `prev` the
    already-updated cell before it (or `EmptyStatus()` for the first cell) and
    `cur` the updated row above. `UpdateCellChoice` states which predecessor it takes.
   */
  function UpdateCell(v: Variant, cur: Row, next: MatchingStatus, prev: MatchingStatus, k: nat): (r: MatchingStatus)
    requires |cur| > 0 && Increasing(cur)
    requires cur[0].idx < next.idx
    requires k == 0 ==> prev == EmptyStatus()
    requires 0 < k ==> prev.idx < next.idx && BackRefOk(cur, prev)
    ensures r.idx == next.idx && r.score == next.score
    ensures BackRefOk(cur, r)
    ensures v.Corrected? && (0 < k ==> Chained(cur, prev)) ==> Chained(cur, r)
  {
    var inherited := InheritedScore(prev, next);
    // what an inherited cell skips since its inherited predecessor (used by the correction only)
    var carried: nat := next.idx - cur[prev.backRef].idx - 1;
    var hi := WindowHi(cur, next);
    var lo := WindowLo(cur, prev, next);
    WindowStart(cur, prev, next, k);
    if lo < hi then
      // `max_by_key` over the window's direct chains
      var b := LastArgMax(ChainKeys(cur, next), lo, hi);
      BelowNext(cur, next, b);
      var score := ChainScore(cur[b], next);
      var adj: nat := next.idx - cur[b].idx - 1;
      if 0 < k && score < inherited then
        var r := next.(finalScore := inherited, backRef := prev.backRef, adjNum := if v.AsWritten? then adj else carried);
        PickInherited(v, cur, prev, next, k, r);
        r
      else
        var r := next.(finalScore := score, backRef := b, adjNum := adj);
        PickDirect(cur, prev, next, k, r);
        r
    else
      // `unwrap_or((prev.back_ref, score_before_idx, prev.adj_num))`; the comparison
      // `score < score_before_idx` that follows is then false
      var r := next.(finalScore := inherited, backRef := prev.backRef, adjNum := if v.AsWritten? then prev.adjNum else carried);
      PickInherited(v, cur, prev, next, k, r);
      r
  }

  /**
    The choice `UpdateCell` makes: the best of the direct chains in the window and,
    after the first cell, of inheriting `prev`'s predecessor; the direct chain wins
    unless inheriting scores strictly more, and among direct chains the last maximal
    one wins. The skip count recorded: as written, the window's last best direct
    chain's when the window is non-empty, even when the cell inherits instead, and
    `prev`'s when it is empty; corrected, always the real one.
   */
  lemma UpdateCellChoice(v: Variant, cur: Row, next: MatchingStatus, prev: MatchingStatus, k: nat)
    requires |cur| > 0 && Increasing(cur)
    requires cur[0].idx < next.idx
    requires k == 0 ==> prev == EmptyStatus()
    requires 0 < k ==> prev.idx < next.idx && BackRefOk(cur, prev)
    ensures PicksBest(cur, prev, next, k, UpdateCell(v, cur, next, prev, k))
    ensures v.AsWritten? && WindowLo(cur, prev, next) == WindowHi(cur, next)
      ==> UpdateCell(v, cur, next, prev, k).adjNum == prev.adjNum
    ensures v.AsWritten? && WindowLo(cur, prev, next) < WindowHi(cur, next)
      ==> var b := LastArgMax(ChainKeys(cur, next), WindowLo(cur, prev, next), WindowHi(cur, next));
          UpdateCell(v, cur, next, prev, k).adjNum == next.idx - cur[b].idx - 1
    ensures v.Corrected? ==> var r := UpdateCell(v, cur, next, prev, k);
      r.adjNum == next.idx - cur[r.backRef].idx - 1
  {
    var r := UpdateCell(v, cur, next, prev, k);
    var hi := WindowHi(cur, next);
    var lo := WindowLo(cur, prev, next);
    WindowStart(cur, prev, next, k);
    if lo < hi {
      var b := LastArgMax(ChainKeys(cur, next), lo, hi);
      BelowNext(cur, next, b);
      if 0 < k && ChainScore(cur[b], next) < InheritedScore(prev, next) {
        PickInherited(v, cur, prev, next, k, r);
      } else {
        PickDirect(cur, prev, next, k, r);
      }
    } else {
      PickInherited(v, cur, prev, next, k, r);
    }
  }

  /** Chaining directly to the window's last best candidate, when inheriting does not beat it, is the update's choice. */
  lemma PickDirect(cur: Row, prev: MatchingStatus, next: MatchingStatus, k: nat, r: MatchingStatus)
    requires prev.idx <= next.idx && r.idx == next.idx && r.score == next.score
    requires IsLastMax(ChainKeys(cur, next), WindowLo(cur, prev, next), WindowHi(cur, next), r.backRef)
    requires r.finalScore == ChainScore(cur[r.backRef], next)
    requires r.adjNum == next.idx - cur[r.backRef].idx - 1
    requires 0 < k ==> InheritedScore(prev, next) <= r.finalScore
    ensures PicksBest(cur, prev, next, k, r)
    ensures Chained(cur, r)
  {
    BestInWindow(cur, prev, next, r.backRef);
    BelowNext(cur, next, r.backRef);
  }

  /**
    Inheriting the left neighbour's predecessor, when the window is empty or its best
    direct chain scores strictly less, is the update's choice. With the real skip
    count recorded, an exact neighbour gives an exact cell.
   */
  lemma PickInherited(v: Variant, cur: Row, prev: MatchingStatus, next: MatchingStatus, k: nat, r: MatchingStatus)
    requires Inherits(prev, next, k, r) && r.idx == next.idx && r.score == next.score
    requires prev.idx < next.idx && BackRefOk(cur, prev)
    requires v.Corrected? ==> r.adjNum == next.idx - cur[prev.backRef].idx - 1
    requires WindowLo(cur, prev, next) < WindowHi(cur, next) ==>
      var b := LastArgMax(ChainKeys(cur, next), WindowLo(cur, prev, next), WindowHi(cur, next));
      ChainScore(cur[b], next) < r.finalScore
    ensures PicksBest(cur, prev, next, k, r)
    ensures BackRefOk(cur, r)
    ensures v.Corrected? && Chained(cur, prev) ==> Chained(cur, r)
  {
    if WindowLo(cur, prev, next) < WindowHi(cur, next) {
      var b := LastArgMax(ChainKeys(cur, next), WindowLo(cur, prev, next), WindowHi(cur, next));
      BestInWindow(cur, prev, next, b);
    }
  }

  /** The window's last maximal direct chain scores at least as much as every direct chain in the window. */
  lemma BestInWindow(cur: Row, prev: MatchingStatus, next: MatchingStatus, b: nat)
    requires IsLastMax(ChainKeys(cur, next), WindowLo(cur, prev, next), WindowHi(cur, next), b)
    ensures b < |cur|
    ensures forall j :: InWindow(cur, prev, next, j) ==> ChainScore(cur[j], next) <= ChainScore(cur[b], next)
  {
    var keys := ChainKeys(cur, next);
    forall j | InWindow(cur, prev, next, j)
      ensures ChainScore(cur[j], next) <= ChainScore(cur[b], next)
    {
      assert keys[j] <= keys[b];
    }
  }

  /** For the first cell of a row the window is never empty: it starts at `cur[0]`. */
  lemma WindowStart(cur: Row, prev: MatchingStatus, next: MatchingStatus, k: nat)
    requires |cur| > 0 && cur[0].idx < next.idx
    requires k == 0 ==> prev == EmptyStatus()
    ensures k == 0 ==> WindowLo(cur, prev, next) == 0 < WindowHi(cur, next)
  {
  }

  /** Every cell of `row` has a valid back-reference into `cur`. */
  predicate BackRefsInto(cur: Row, row: Row) {
    forall j :: 0 <= j < |row| ==> BackRefOk(cur, row[j])
  }

  predicate ChainedInto(cur: Row, row: Row) {
    forall j :: 0 <= j < |row| ==> Chained(cur, row[j])
  }

  /** Back-references of every row after the first point into the row above. */
  predicate Linked(rows: seq<Row>) {
    forall q :: 0 < q < |rows| ==> BackRefsInto(rows[q - 1], rows[q])
  }

  predicate ChainedRows(rows: seq<Row>) {
    forall q :: 0 < q < |rows| ==> ChainedInto(rows[q - 1], rows[q])
  }

  /** Same positions and local scores, cell by cell: only the DP bookkeeping may differ. */
  predicate SameCells(a: Row, b: Row) {
    |a| == |b| && forall j :: 0 <= j < |a| ==> a[j].idx == b[j].idx && a[j].score == b[j].score
  }

  predicate SameCellsRows(a: seq<Row>, b: seq<Row>) {
    |a| == |b| && forall q :: 0 <= q < |a| ==> SameCells(a[q], b[q])
  }

  /**
    The first `k` cells of `row` after the in-place update loop has visited them,
    left to right: each cell sees its already-updated left neighbour.
   */
  function SweepRow(v: Variant, cur: Row, row: Row, k: nat): (r: Row)
    requires |cur| > 0 && Increasing(cur)
    requires Increasing(row) && Above(row, cur[0].idx)
    requires k <= |row|
    ensures SameCells(r, row[..k])
    ensures BackRefsInto(cur, r)
    ensures v.Corrected? ==> ChainedInto(cur, r)
    decreases k
  {
    if k == 0 then []
    else
      var done := SweepRow(v, cur, row, k - 1);
      if k == 1 then
        var c := UpdateCell(v, cur, row[0], EmptyStatus(), 0);
        AppendCell(v, cur, row, k, done, c);
        done + [c]
      else
        var prev := done[k - 2];
        LeftNeighbour(cur, row, k, done);
        var c := UpdateCell(v, cur, row[k - 1], prev, k - 1);
        AppendCell(v, cur, row, k, done, c);
        done + [c]
  }

  /**
    Cell `j` of `r` is the update of `row[j]` from the already-updated cell `r[j - 1]`
    before it (from `EmptyStatus()` for the first cell).
   */
  predicate UpdatedFromLeft(v: Variant, cur: Row, row: Row, r: Row, j: nat) {
    && |cur| > 0 && Increasing(cur) && j < |r| && j < |row| && cur[0].idx < row[j].idx
    && (0 < j ==> r[j - 1].idx < row[j].idx && BackRefOk(cur, r[j - 1]))
    && r[j] == UpdateCell(v, cur, row[j], if j == 0 then EmptyStatus() else r[j - 1], j)
  }

  /**
    A step of the in-place loop keeps the cells already updated and appends the
    update of cell `k - 1` from its already-updated left neighbour (from
    `EmptyStatus()` for the first cell), so `UpdateCellChoice` describes every cell
    of a swept row.
   */
  lemma SweepRowLast(v: Variant, cur: Row, row: Row, k: nat)
    requires |cur| > 0 && Increasing(cur)
    requires Increasing(row) && Above(row, cur[0].idx)
    requires 0 < k <= |row|
    ensures SweepRow(v, cur, row, k)[..k - 1] == SweepRow(v, cur, row, k - 1)
    ensures UpdatedFromLeft(v, cur, row, SweepRow(v, cur, row, k), k - 1)
  {
    var done := SweepRow(v, cur, row, k - 1);
    var r := SweepRow(v, cur, row, k);
    if 1 < k {
      LeftNeighbour(cur, row, k, done);
      assert r == done + [UpdateCell(v, cur, row[k - 1], done[k - 2], k - 1)];
      assert r[k - 2] == done[k - 2];
    } else {
      assert r == done + [UpdateCell(v, cur, row[0], EmptyStatus(), 0)];
    }
    assert r[..k - 1] == done;
  }

  /** The already-updated cell left of position `k - 1` lies before it and has a valid back-reference. */
  lemma LeftNeighbour(cur: Row, row: Row, k: nat, done: Row)
    requires Increasing(row) && 1 < k <= |row|
    requires SameCells(done, row[..k - 1]) && BackRefsInto(cur, done)
    ensures done[k - 2].idx < row[k - 1].idx && BackRefOk(cur, done[k - 2])
  {
    assert done[k - 2].idx == row[..k - 1][k - 2].idx == row[k - 2].idx;
  }

  /** Appending the update of cell `k - 1` extends the swept prefix by one cell. */
  lemma AppendCell(v: Variant, cur: Row, row: Row, k: nat, done: Row, c: MatchingStatus)
    requires 0 < k <= |row|
    requires SameCells(done, row[..k - 1]) && BackRefsInto(cur, done)
    requires c.idx == row[k - 1].idx && c.score == row[k - 1].score && BackRefOk(cur, c)
    ensures SameCells(done + [c], row[..k]) && BackRefsInto(cur, done + [c])
    ensures ChainedInto(cur, done) && Chained(cur, c) ==> ChainedInto(cur, done + [c])
  {
    var r := done + [c];
    forall j | 0 <= j < |r|
      ensures r[j].idx == row[..k][j].idx && r[j].score == row[..k][j].score && BackRefOk(cur, r[j])
    {
      if j < |done| {
        assert r[j] == done[j] && row[..k][j] == row[..k - 1][j];
      }
    }
    if ChainedInto(cur, done) && Chained(cur, c) {
      forall j | 0 <= j < |r|
        ensures Chained(cur, r[j])
      {
        if j < |done| {
          assert r[j] == done[j];
        }
      }
    }
  }

  /** Updating a row keeps it increasing and above the same bound. */
  lemma SameCellsShape(a: Row, b: Row, bound: int)
    requires SameCells(a, b) && Increasing(b) && Above(b, bound)
    ensures Increasing(a) && Above(a, bound)
  {
  }

  /** `out` is `row` after the in-place update loop, run below the already-swept row `cur`. */
  predicate RowSwept(v: Variant, cur: Row, row: Row, out: Row) {
    && |cur| > 0 && Increasing(cur) && Increasing(row) && Above(row, cur[0].idx)
    && out == SweepRow(v, cur, row, |row|)
  }

  /**
    `out` is `rest` swept row by row: its first row is the first row of `rest`
    swept below `cur`, and each later row is swept below the one swept before it.
   */
  predicate SweptFrom(v: Variant, cur: Row, rest: seq<Row>, out: seq<Row>)
    decreases |rest|
  {
    && |out| == |rest|
    && (0 < |rest| ==> RowSwept(v, cur, rest[0], out[0]) && SweptFrom(v, out[0], rest[1..], out[1..]))
  }

  /**
    The outer loop: sweep each row of `rest` in turn, below the rows already `done`;
    each row is swept below the swept row above it.
   */
  function SweepRows(v: Variant, done: seq<Row>, rest: seq<Row>): (r: seq<Row>)
    requires |done| > 0 && Stacked(done + rest)
    requires Linked(done) && (v.Corrected? ==> ChainedRows(done))
    ensures SameCellsRows(r, done + rest) && r[..|done|] == done
    ensures Stacked(r) && Linked(r)
    ensures v.Corrected? ==> ChainedRows(r)
    decreases |rest|
  {
    if rest == [] then
      assert done + rest == done;
      done
    else
      var cur := done[|done| - 1];
      NextRowStacked(done, rest);
      var swept := SweepRow(v, cur, rest[0], |rest[0]|);
      assert rest[0][..|rest[0]|] == rest[0];
      var done' := done + [swept];
      SweepStep(v, done, rest, swept);
      SweepRows(v, done', rest[1..])
  }

  /** The outer loop sweeps every row of `rest` below the swept row above it. */
  lemma {:induction false} SweepRowsBelow(v: Variant, done: seq<Row>, rest: seq<Row>)
    requires |done| > 0 && Stacked(done + rest)
    requires Linked(done) && (v.Corrected? ==> ChainedRows(done))
    ensures SweptFrom(v, done[|done| - 1], rest, SweepRows(v, done, rest)[|done|..])
    decreases |rest|
  {
    var r := SweepRows(v, done, rest);
    if rest == [] {
      assert r[|done|..] == [];
    } else {
      var swept := SweepRowsStep(v, done, rest);
      var done' := done + [swept];
      SweepRowsBelow(v, done', rest[1..]);
      SweptFromCons(v, done[|done| - 1], rest, done', r);
    }
  }

  /** One pass of the outer loop: the next row is swept below the last row done, and the loop goes on from there. */
  lemma SweepRowsStep(v: Variant, done: seq<Row>, rest: seq<Row>) returns (swept: Row)
    requires |done| > 0 && |rest| > 0 && Stacked(done + rest)
    requires Linked(done) && (v.Corrected? ==> ChainedRows(done))
    ensures RowSwept(v, done[|done| - 1], rest[0], swept)
    ensures Stacked(done + [swept] + rest[1..]) && Linked(done + [swept])
    ensures v.Corrected? ==> ChainedRows(done + [swept])
    ensures SweepRows(v, done, rest) == SweepRows(v, done + [swept], rest[1..])
  {
    var cur := done[|done| - 1];
    NextRowStacked(done, rest);
    swept := SweepRow(v, cur, rest[0], |rest[0]|);
    assert rest[0][..|rest[0]|] == rest[0];
    SweepStep(v, done, rest, swept);
  }

  /** A row swept below `cur`, followed by the rows swept below it, is `rest` swept from `cur`. */
  lemma SweptFromCons(v: Variant, cur: Row, rest: seq<Row>, done': seq<Row>, r: seq<Row>)
    requires 0 < |rest| && 1 < |done'| <= |r| && r[..|done'|] == done'
    requires RowSwept(v, cur, rest[0], done'[|done'| - 1])
    requires SweptFrom(v, done'[|done'| - 1], rest[1..], r[|done'|..])
    ensures SweptFrom(v, cur, rest, r[|done'| - 1..])
  {
    var out := r[|done'| - 1..];
    assert out[0] == r[..|done'|][|done'| - 1] == done'[|done'| - 1];
    assert out[1..] == r[|done'|..];
  }

  /** The next row to sweep and the last row already swept meet the row update's demands. */
  lemma NextRowStacked(done: seq<Row>, rest: seq<Row>)
    requires |done| > 0 && |rest| > 0 && Stacked(done + rest)
    ensures |done[|done| - 1]| > 0 && Increasing(done[|done| - 1])
    ensures Increasing(rest[0]) && Above(rest[0], done[|done| - 1][0].idx)
  {
    var all := done + rest;
    assert done[|done| - 1] == all[|done| - 1] && rest[0] == all[|done|];
  }

  lemma SweepStep(v: Variant, done: seq<Row>, rest: seq<Row>, swept: Row)
    requires |done| > 0 && |rest| > 0 && Stacked(done + rest)
    requires Linked(done) && (v.Corrected? ==> ChainedRows(done))
    requires SameCells(swept, rest[0])
    requires BackRefsInto(done[|done| - 1], swept)
    requires v.Corrected? ==> ChainedInto(done[|done| - 1], swept)
    ensures Stacked(done + [swept] + rest[1..])
    ensures Linked(done + [swept])
    ensures v.Corrected? ==> ChainedRows(done + [swept])
    ensures forall a: seq<Row> ::
      SameCellsRows(a, done + [swept] + rest[1..]) ==> SameCellsRows(a, done + rest)
    ensures forall q :: |done| < q < |done + rest| ==> (done + [swept] + rest[1..])[q] == (done + rest)[q]
  {
    var all := done + rest;
    var all' := done + [swept] + rest[1..];
    assert |all'| == |all|;
    forall q | 0 <= q < |all|
      ensures SameCells(all'[q], all[q])
    {
      if q < |done| {
        assert all'[q] == done[q] == all[q];
      } else if q == |done| {
        assert all'[q] == swept && all[q] == rest[0];
      } else {
        assert all'[q] == rest[q - |done|] == all[q];
      }
    }
    forall q | 0 <= q < |all'|
      ensures |all'[q]| > 0 && Increasing(all'[q])
      ensures 0 < q ==> Above(all'[q], all'[q - 1][0].idx)
    {
      if 0 < q {
        assert all'[q - 1][0].idx == all[q - 1][0].idx;
        SameCellsShape(all'[q], all[q], all[q - 1][0].idx);
      } else {
        SameCellsShape(all'[q], all[q], -1);
      }
    }
    var done' := done + [swept];
    forall q | 0 < q < |done'|
      ensures BackRefsInto(done'[q - 1], done'[q])
      ensures v.Corrected? ==> ChainedInto(done'[q - 1], done'[q])
    {
      if q < |done| {
        assert done'[q - 1] == done[q - 1] && done'[q] == done[q];
      }
    }
    forall a: seq<Row> | SameCellsRows(a, all')
      ensures SameCellsRows(a, all)
    {
      forall q | 0 <= q < |a|
        ensures SameCells(a[q], all[q])
      {
        assert SameCells(a[q], all'[q]) && SameCells(all'[q], all[q]);
      }
    }
  }

  /**
    The whole sweep: the rows keep their cells' positions and local scores, the
    first row is untouched, and every back-reference points into the row above at
    a cell strictly to the left. In the corrected reading every cell's bookkeeping
    is exact as well.
   */
  function Sweep(v: Variant, rows: seq<Row>): (r: seq<Row>)
    requires |rows| > 0 && Stacked(rows)
    ensures SameCellsRows(r, rows) && r[0] == rows[0]
    ensures Stacked(r) && Linked(r)
    ensures v.Corrected? ==> ChainedRows(r)
  {
    assert [rows[0]] + rows[1..] == rows;
    SweepRows(v, [rows[0]], rows[1..])
  }

  /** Every row after the first is swept below the swept row above it. */
  lemma SweptRowByRow(v: Variant, rows: seq<Row>)
    requires |rows| > 0 && Stacked(rows)
    ensures SweptFrom(v, rows[0], rows[1..], Sweep(v, rows)[1..])
  {
    assert [rows[0]] + rows[1..] == rows;
    SweepRowsBelow(v, [rows[0]], rows[1..]);
  }
}

/**
  The matcher's scoring rule: the local score of one matched character
  (`fuzzy_score`) and the bonus or penalty for the gap between two consecutive
  matched characters, together with the score of a whole alignment built from them.
 */
module Scoring {
  import opened Ascii

  const BonusUpperMatch: int := 10
  const BonusAdjacency: int := 10
  const BonusSeparator: int := 8
  const PenaltyCaseUnmatched: int := -1
  /** Applied for every character before the first match ... */
  const PenaltyLeading: int := -6
  /** ... but never more than this in total. */
  const PenaltyMaxLeading: int := -18
  const PenaltyUnmatched: int := -2

  /** +10 for an exact upper-case match, -1 for any other (case-insensitive) match. */
  function CaseTerm(patternChar: char, cur: char): int
  {
    if IsUpper(patternChar) && IsUpper(cur) && patternChar == cur then BonusUpperMatch else PenaltyCaseUnmatched
  }

  /** +8 when the preceding character starts a new word, 0 otherwise. */
  function SeparatorTerm(prev: char): int
  {
    if IsSeparator(prev) then BonusSeparator else 0
  }

  /** `max(index * -6, -18)`: the capped penalty for characters skipped before the first match. */
  function LeadingPenalty(index: nat): (r: int)
    ensures PenaltyMaxLeading <= r <= 0
    ensures r == 0 <==> index == 0
    ensures index < 3 ==> r == PenaltyLeading * index
    ensures 3 <= index ==> r == PenaltyMaxLeading
  {
    if index * PenaltyLeading > PenaltyMaxLeading then index * PenaltyLeading else PenaltyMaxLeading
  }

  /**
    `fuzzy_score` as written. It reads the character before `index`, so the source
    can only call it with `index >= 1`; with `index == 0` the subtraction underflows
    and the program panics. Where it is defined it agrees with `CellScore`.
   */
  function FuzzyScore(s: seq<char>, index: nat, pattern: seq<char>, patternIdx: nat): (r: int)
    requires 1 <= index < |s| && patternIdx < |pattern|
    ensures r == CellScore(s, index, pattern, patternIdx)
    ensures -19 <= r <= 18
    ensures patternIdx > 0 ==> r in {-1, 7, 10, 18}
  {
    CaseTerm(pattern[patternIdx], s[index])
      + SeparatorTerm(s[index - 1])
      + (if patternIdx == 0 then LeadingPenalty(index) else 0)
  }

  /**
    The local score with the start of the string handled: a match at index 0 has
    no preceding character and so earns no separator bonus.
   */
  function CellScore(s: seq<char>, index: nat, pattern: seq<char>, patternIdx: nat): (r: int)
    requires index < |s| && patternIdx < |pattern|
  {
    CaseTerm(pattern[patternIdx], s[index])
      + (if index == 0 then 0 else SeparatorTerm(s[index - 1]))
      + (if patternIdx == 0 then LeadingPenalty(index) else 0)
  }

  /** The score for chaining two matches `gap` characters apart. */
  function GapBonus(gap: int): int
  {
    if gap == 0 then BonusAdjacency else PenaltyUnmatched * gap
  }

  /**
    The score of an alignment `picked` of the first `|picked|` pattern characters:
    the local score of every matched character plus the gap score between
    every pair of consecutive matches.
   */
  function PathScore(s: seq<char>, pattern: seq<char>, picked: seq<nat>): int
    requires |picked| <= |pattern|
    requires forall k :: 0 <= k < |picked| ==> picked[k] < |s|
    decreases |picked|
  {
    if |picked| == 0 then 0
    else
      var n := |picked| - 1;
      PathScore(s, pattern, picked[..n])
        + CellScore(s, picked[n], pattern, n)
        + (if n == 0 then 0 else GapBonus(picked[n] as int - picked[n - 1] - 1))
  }

  /** Extending an alignment by one more match adds its local score and the gap score. */
  lemma PathScoreSnoc(s: seq<char>, pattern: seq<char>, prefix: seq<nat>, x: nat)
    requires 0 < |prefix| < |pattern| && x < |s|
    requires forall k :: 0 <= k < |prefix| ==> prefix[k] < |s|
    ensures forall k :: 0 <= k < |prefix + [x]| ==> (prefix + [x])[k] < |s|
    ensures PathScore(s, pattern, prefix + [x])
         == PathScore(s, pattern, prefix) + CellScore(s, x, pattern, |prefix|) + GapBonus(x as int - prefix[|prefix| - 1] - 1)
  {
    assert (prefix + [x])[..|prefix|] == prefix;
  }

  /** An exact upper-case match scores 11 more than the same position matched case-insensitively only. */
  lemma ExactUpperBeatsCaseOnly(s: seq<char>, t: seq<char>, index: nat, pattern: seq<char>, patternIdx: nat)
    requires index < |s| == |t| && patternIdx < |pattern|
    requires forall i :: 0 <= i < |s| && i != index ==> s[i] == t[i]
    requires IsUpper(pattern[patternIdx]) && s[index] == pattern[patternIdx]
    requires t[index] != pattern[patternIdx]
    ensures CellScore(s, index, pattern, patternIdx) == CellScore(t, index, pattern, patternIdx) + 11
  {
    if index > 0 {
      assert s[index - 1] == t[index - 1];
    }
  }

  /** A separator before the match is worth exactly 8, everything else being equal. */
  lemma SeparatorWorthEight(s: seq<char>, t: seq<char>, index: nat, pattern: seq<char>, patternIdx: nat)
    requires 1 <= index < |s| == |t| && patternIdx < |pattern|
    requires forall i :: 0 <= i < |s| && i != index - 1 ==> s[i] == t[i]
    requires IsSeparator(s[index - 1]) && !IsSeparator(t[index - 1])
    ensures FuzzyScore(s, index, pattern, patternIdx) == FuzzyScore(t, index, pattern, patternIdx) + 8
  {
    assert s[index] == t[index];
  }

  /** The leading penalty applies to the first pattern character only and lies in [-18, 0]. */
  lemma LeadingPenaltyOnlyFirst(s: seq<char>, index: nat, pattern: seq<char>, q: nat)
    requires index < |s| && 0 < q < |pattern| && pattern[0] == pattern[q]
    ensures PenaltyMaxLeading <= CellScore(s, index, pattern, 0) - CellScore(s, index, pattern, q) <= 0
  {
  }
}

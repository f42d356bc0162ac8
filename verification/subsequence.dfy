/**
  Case-insensitive subsequence embeddings: the reference notion against which the
  matcher's "no match" answer and its recovered indices are judged.
 */
module Subsequence {
  import opened Ascii

  /**
    `e` places the pattern characters `pattern[p..]` at strictly increasing
    positions of `choice`, all of them after position `after`, each position
    holding the same character as the pattern up to ASCII case.
   */
  predicate EmbeddingAfter(choice: seq<char>, pattern: seq<char>, p: nat, after: int, e: seq<nat>) {
    && p + |e| == |pattern|
    && (forall k :: 0 <= k < |e| ==> after < e[k] < |choice| && SameLower(choice[e[k]], pattern[p + k]))
    && (forall i, j :: 0 <= i < j < |e| ==> e[i] < e[j])
  }

  /** A full embedding of `pattern` into `choice`. */
  predicate IsEmbedding(choice: seq<char>, pattern: seq<char>, e: seq<nat>) {
    EmbeddingAfter(choice, pattern, 0, -1, e)
  }

  ghost predicate EmbedsAfter(choice: seq<char>, pattern: seq<char>, p: nat, after: int) {
    exists e :: EmbeddingAfter(choice, pattern, p, after, e)
  }

  /** `pattern` is an ASCII-case-insensitive subsequence of `choice`. */
  ghost predicate IsSubsequence(choice: seq<char>, pattern: seq<char>) {
    EmbedsAfter(choice, pattern, 0, -1)
  }

  /** Once every pattern character is placed, the empty rest embeds anywhere. */
  lemma EmbedsNothing(choice: seq<char>, pattern: seq<char>, after: int)
    ensures EmbedsAfter(choice, pattern, |pattern|, after)
  {
    assert EmbeddingAfter(choice, pattern, |pattern|, after, []);
  }

  /** With no occurrence of `pattern[p]` after `after`, the rest cannot embed there. */
  lemma NoOccurrence(choice: seq<char>, pattern: seq<char>, p: nat, after: int)
    requires p < |pattern|
    requires forall j :: 0 <= j < |choice| && after < j ==> !SameLower(choice[j], pattern[p])
    ensures !EmbedsAfter(choice, pattern, p, after)
  {
    forall e ensures !EmbeddingAfter(choice, pattern, p, after, e) {
      if 0 < |e| {
        var first := e[0];
      }
    }
  }

  /**
    The greedy step: if `i` is the first occurrence of `pattern[p]` after `after`,
    then the rest of the pattern embeds after `after` exactly when the remainder
    `pattern[p+1..]` embeds after `i`.
   */
  lemma {:induction false} GreedyStep(choice: seq<char>, pattern: seq<char>, p: nat, after: int, i: nat)
    requires p < |pattern|
    requires after < i < |choice| && SameLower(choice[i], pattern[p])
    requires forall j :: 0 <= j < i && after < j ==> !SameLower(choice[j], pattern[p])
    ensures EmbedsAfter(choice, pattern, p, after) <==> EmbedsAfter(choice, pattern, p + 1, i)
  {
    if e :| EmbeddingAfter(choice, pattern, p, after, e) {
      assert i <= e[0] by {
        assert after < e[0] && SameLower(choice[e[0]], pattern[p]);
      }
      var tail := e[1..];
      forall k | 0 <= k < |tail|
        ensures i < tail[k] < |choice| && SameLower(choice[tail[k]], pattern[p + 1 + k])
      {
        assert tail[k] == e[k + 1];
        assert e[0] < e[k + 1];
      }
      assert EmbeddingAfter(choice, pattern, p + 1, i, tail);
    }
    var next := p + 1;
    if e :| EmbeddingAfter(choice, pattern, next, i, e) {
      var full := [i] + e;
      forall k | 0 <= k < |full|
        ensures after < full[k] < |choice| && SameLower(choice[full[k]], pattern[p + k])
      {
        if k > 0 {
          assert full[k] == e[k - 1];
        }
      }
      assert EmbeddingAfter(choice, pattern, p, after, full);
    }
  }
}

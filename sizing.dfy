/**
  The target size of a summary: the length names, and how many sentences a
  summary keeps. Both summarisers compute
  `max(1, int(target_words / (len(words) / len(sentences))))` in floating point;
  here the quotient is the exact one, `floor(target * n / w)` for `n` sentences
  and `w` words.
*/
module Sizing {

  /** The three length names both summarisers recognise: "short", "medium" and
      "long" stand for 75, 200 and 400 words. */
  predicate IsLengthName(t: string) {
    t == "short" || t == "medium" || t == "long"
  }

  /** The sentence budget: the largest `k` with `k * w <= target * n`, but at
      least one; it is one exactly when `target * n` is below `2 * w`. */
  function TargetSentenceCount(target: nat, wordCount: nat, sentenceCount: nat): (k: nat)
    requires wordCount > 0
    ensures k >= 1
    ensures k == 1 || k * wordCount <= target * sentenceCount < (k + 1) * wordCount
    ensures k == 1 <==> target * sentenceCount < 2 * wordCount
  {
    var q := (target * sentenceCount) / wordCount;
    if q > 1 then q else 1
  }

  /** On the path where the text has more words than the target, the budget is
      below the number of sentences (given at least two), so a summary always
      drops at least one sentence. */
  lemma {:induction false} BudgetBelowSentenceCount(target: nat, wordCount: nat, sentenceCount: nat)
    requires sentenceCount >= 2
    requires wordCount > target
    ensures 1 <= TargetSentenceCount(target, wordCount, sentenceCount) < sentenceCount
  {
    var k := TargetSentenceCount(target, wordCount, sentenceCount);
    if k > 1 {
      assert target * sentenceCount < wordCount * sentenceCount by {
        MulStrict(target, wordCount, sentenceCount);
      }
      if k >= sentenceCount {
        assert k * wordCount >= sentenceCount * wordCount by {
          MulMono(sentenceCount, k, wordCount);
        }
        assert false;
      }
    }
  }

  lemma MulStrict(a: nat, b: nat, c: nat)
    requires a < b && c > 0
    ensures a * c < b * c
  {
  }

  lemma MulMono(a: nat, b: nat, c: nat)
    requires a <= b
    ensures a * c <= b * c
  {
  }
}

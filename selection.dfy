/**
 * `find_guess`: the search for the guess with the lowest expectimax score over
 * the guessable words, keeping the earliest word on ties.
 */
module Selection {
  import opened Options
  import opened Partitioning
  import opened Scoring

  /** The scores `recursive_build_tree` gives the candidates over `pool`, in candidate order. */
  function Scores(cands: seq<Word>, pool: seq<Word>): (r: seq<real>)
    requires AllWords(cands) && AllWords(pool)
    ensures |r| == |cands|
    ensures forall i | 0 <= i < |cands| :: r[i] == RecursiveBuildTree(cands[i], pool).1
  {
    seq(|cands|, i requires 0 <= i < |cands| => RecursiveBuildTree(cands[i], pool).1)
  }

  /**
   * Entry `i` is no greater than any entry, and every earlier entry is
   * strictly greater: it is the entry a scan with a strict `<` ends on.
   */
  predicate IsFirstMin(scores: seq<real>, i: nat) {
    && i < |scores|
    && (forall j | 0 <= j < |scores| :: scores[i] <= scores[j])
    && (forall j | 0 <= j < i :: scores[i] < scores[j])
  }

  /** `w` is the candidate the search ends on: the first candidate with the least score. */
  predicate IsBestGuess(cands: seq<Word>, pool: seq<Word>, w: Word)
    requires AllWords(cands) && AllWords(pool)
  {
    exists i | 0 <= i < |cands| :: IsFirstMin(Scores(cands, pool), i) && cands[i] == w
  }

  /** The candidate at the first minimum is the best guess. */
  lemma FirstMinIsBest(cands: seq<Word>, pool: seq<Word>, i: nat)
    requires AllWords(cands) && AllWords(pool) && IsFirstMin(Scores(cands, pool), i)
    ensures i < |cands| && IsBestGuess(cands, pool, cands[i])
  {
  }

  /**
   * What a strict-`<` scan over `scores[..k]` knows: nothing before the first
   * entry (`None` stands for `float('inf')`), afterwards the first least entry
   * so far and its value.
   */
  predicate ScanState(scores: seq<real>, k: nat, index: nat, best: Option<real>)
    requires k <= |scores|
  {
    && (best.None? <==> k == 0)
    && (best.Some? ==>
          && index < k && best.value == scores[index]
          && (forall j | 0 <= j < k :: best.value <= scores[j])
          && (forall j | 0 <= j < index :: best.value < scores[j]))
  }

  /** One step of the scan: a strictly lower entry replaces the best, anything else leaves it. */
  lemma ScanStep(scores: seq<real>, k: nat, index: nat, best: Option<real>)
    requires k < |scores| && ScanState(scores, k, index, best)
    ensures best.None? || scores[k] < best.value ==> ScanState(scores, k + 1, k, Some(scores[k]))
    ensures best.Some? && best.value <= scores[k] ==> ScanState(scores, k + 1, index, best)
  {
  }

  /** A scan that has seen every entry ends on the first minimum. */
  lemma ScanDone(scores: seq<real>, index: nat, best: Option<real>)
    requires |scores| > 0 && ScanState(scores, |scores|, index, best)
    ensures IsFirstMin(scores, index)
  {
  }

  /**
   * The loop of `find_guess`: builds the tree of every candidate and keeps the
   * first one whose score is strictly lower than the best so far.
   */
  method FindBest(canGuess: seq<Word>, pool: seq<Word>) returns (best: Tree, index: nat)
    requires AllWords(canGuess) && AllWords(pool) && |canGuess| > 0
    ensures IsFirstMin(Scores(canGuess, pool), index)
    ensures best == RecursiveBuildTree(canGuess[index], pool).0 && best.val == canGuess[index]
  {
    ghost var scores := Scores(canGuess, pool);
    var bestTree: Option<Tree> := None;
    var bestScore: Option<real> := None;
    index := 0;
    for k := 0 to |canGuess|
      invariant ScanState(scores, k, index, bestScore)
      invariant bestScore.Some? ==> bestTree == Some(RecursiveBuildTree(canGuess[index], pool).0)
    {
      var (curTree, score) := RecursiveBuildTree(canGuess[k], pool);
      assert score == scores[k];
      ScanStep(scores, k, index, bestScore);
      if bestScore.None? || score < bestScore.value {
        bestTree, bestScore, index := Some(curTree), Some(score), k;
      }
    }
    ScanDone(scores, index, bestScore);
    best := bestTree.value;
  }

  /** The first minimum is unique: the scan has exactly one possible outcome. */
  lemma FirstMinUnique(scores: seq<real>, i: nat, j: nat)
    requires IsFirstMin(scores, i) && IsFirstMin(scores, j)
    ensures i == j
  {
    assert scores[i] <= scores[j] && scores[j] <= scores[i];
  }

  /** A first entry that equals a lower bound of all entries is the first minimum. */
  lemma LeastFirstIsFirstMin(scores: seq<real>, least: real)
    requires |scores| > 0 && scores[0] == least
    requires forall j | 0 <= j < |scores| :: least <= scores[j]
    ensures IsFirstMin(scores, 0)
  {
  }

  /** When the first candidate scores 1, the least score there is, the search ends on it. */
  lemma ResolvedFirstWins(cands: seq<Word>, pool: seq<Word>, i: nat)
    requires AllWords(cands) && AllWords(pool) && |cands| > 0
    requires RecursiveBuildTree(cands[0], pool).1 == 1.0
    requires IsFirstMin(Scores(cands, pool), i)
    ensures i == 0
  {
    var scores := Scores(cands, pool);
    LeastFirstIsFirstMin(scores, 1.0);
    FirstMinUnique(scores, 0, i);
  }

  /** When the first candidate scores 1, the search ends on that candidate. */
  lemma ResolvedFirstIsBest(cands: seq<Word>, pool: seq<Word>, w: Word)
    requires AllWords(cands) && AllWords(pool) && |cands| > 0
    requires RecursiveBuildTree(cands[0], pool).1 == 1.0
    requires IsBestGuess(cands, pool, w)
    ensures w == cands[0]
  {
    var i :| 0 <= i < |cands| && IsFirstMin(Scores(cands, pool), i) && cands[i] == w;
    ResolvedFirstWins(cands, pool, i);
  }
}

/**
 * The recursive scorer of the search-based Wordle agent (`calculate_score`,
 * `recursive_build_tree`) and the expectimax tree (`Tree`, `Node`) it builds.
 *
 * The score of a guess against a pool estimates how many candidates remain
 * after the guess is played: the pool is split by the three-way bucket rule at
 * positions 0, 1, ..., LastPosition in turn, and each bucket's score is weighted
 * by the fraction of the pool it holds.
 */
module Scoring {
  import opened Partitioning

  /** A node whose pool has at most this many words is resolved (`MIN_POOL_SIZE`). */
  const MinPoolSize: nat := 1

  /**
   * `calculate_score`: the expected number of remaining candidates for `guess`,
   * looking at positions `pos` .. LastPosition of the words in `pool`.
   * It lies between 1 and the pool's size, and is exactly 1 for a pool of at most one word.
   */
  function CalculateScore(guess: Word, pos: nat, pool: seq<Word>): (r: real)
    requires IsWord(guess) && AllWords(pool)
    ensures 1.0 <= r
    ensures |pool| <= MinPoolSize ==> r == 1.0
    ensures MinPoolSize < |pool| ==> r <= |pool| as real
    decreases LastPosition + 1 - pos
  {
    var n := |pool|;
    if n <= MinPoolSize then 1.0
    else if pos > LastPosition then n as real
    else
      var b := Partition(guess, pos, pool);
      PartitionSize(guess, pos, pool);
      var green := CalculateScore(guess, pos + 1, b.green);
      var yellow := CalculateScore(guess, pos + 1, b.yellow);
      var grey := CalculateScore(guess, pos + 1, b.grey);
      WeightedSum(|b.green| as real, |b.yellow| as real, |b.grey| as real, n as real, green, yellow, grey);
      Weighted(|b.green| as real, n as real, green)
      + Weighted(|b.yellow| as real, n as real, yellow)
      + Weighted(|b.grey| as real, n as real, grey)
  }

  /** The share of the pool a bucket holds (`len(bucket) / pool_len`). */
  function Fraction(count: real, total: real): real
    requires total != 0.0
  {
    count / total
  }

  /** A bucket's contribution to the score: its share of the pool times its own score. */
  function Weighted(count: real, total: real, score: real): real
    requires total != 0.0
  {
    Fraction(count, total) * score
  }

  /** One bucket's contribution lies between its share of the pool and its size. */
  lemma WeightedBounds(count: real, total: real, score: real)
    requires 0.0 <= count <= total && 1.0 <= total
    requires 1.0 <= score && (count <= 1.0 ==> score == 1.0) && (1.0 < count ==> score <= count)
    ensures Fraction(count, total) <= Weighted(count, total, score) <= count
  {
    var w := count / total;
    assert 0.0 <= w <= 1.0;
    assert w * 1.0 <= w * score;
    if count > 1.0 {
      assert w * score <= w * count;
      assert w * count <= 1.0 * count;
    } else {
      assert w * score == w;
      assert w <= count;
    }
  }

  /** The shares of three buckets that split the pool add up to one. */
  lemma FractionsSumToOne(a: real, b: real, c: real, total: real)
    requires 1.0 <= total && a + b + c == total
    ensures Fraction(a, total) + Fraction(b, total) + Fraction(c, total) == 1.0
  {
    assert a / total + b / total + c / total == (a + b + c) / total;
  }

  /**
   * The recursive case is a weighted mean: with bucket sizes summing to `total`
   * and each bucket's score between 1 and its size, the sum of the contributions
   * lies between 1 and `total`.
   */
  lemma WeightedSum(a: real, b: real, c: real, total: real, sa: real, sb: real, sc: real)
    requires 0.0 <= a && 0.0 <= b && 0.0 <= c && a + b + c == total && 1.0 <= total
    requires 1.0 <= sa && (a <= 1.0 ==> sa == 1.0) && (1.0 < a ==> sa <= a)
    requires 1.0 <= sb && (b <= 1.0 ==> sb == 1.0) && (1.0 < b ==> sb <= b)
    requires 1.0 <= sc && (c <= 1.0 ==> sc == 1.0) && (1.0 < c ==> sc <= c)
    ensures 1.0 <= Weighted(a, total, sa) + Weighted(b, total, sb) + Weighted(c, total, sc) <= total
  {
    FractionsSumToOne(a, b, c, total);
    WeightedBounds(a, total, sa);
    WeightedBounds(b, total, sb);
    WeightedBounds(c, total, sc);
  }

  /** A node of the expectimax tree: a leaf, or a split of its pool into the green, yellow and grey children. */
  datatype Node =
    | Leaf(pool: seq<Word>)
    | Inner(pool: seq<Word>, green: Node, yellow: Node, grey: Node)

  /** The expectimax tree of one guess (`Tree`): the guessed word and the root node holding the pool. */
  datatype Tree = Tree(val: Word, rootNode: Node)

  /** The nodes `calculate_score` creates: a node is split only when its pool has more than one word and positions remain. */
  function BuildNode(guess: Word, pos: nat, pool: seq<Word>): (node: Node)
    requires IsWord(guess) && AllWords(pool)
    ensures node.pool == pool
    ensures node.Inner? <==> MinPoolSize < |pool| && pos <= LastPosition
    ensures node.Inner? ==> var b := Partition(guess, pos, pool);
      node.green.pool == b.green && node.yellow.pool == b.yellow && node.grey.pool == b.grey
    decreases LastPosition + 1 - pos
  {
    if |pool| <= MinPoolSize || pos > LastPosition then Leaf(pool)
    else
      var b := Partition(guess, pos, pool);
      Inner(pool, BuildNode(guess, pos + 1, b.green), BuildNode(guess, pos + 1, b.yellow), BuildNode(guess, pos + 1, b.grey))
  }

  /** The pools of a tree's leaves, green before yellow before grey. */
  function Leaves(node: Node): seq<seq<Word>> {
    match node
    case Leaf(pool) => [pool]
    case Inner(_, green, yellow, grey) => Leaves(green) + Leaves(yellow) + Leaves(grey)
  }

  function Flatten(pools: seq<seq<Word>>): seq<Word> {
    if pools == [] then [] else pools[0] + Flatten(pools[1..])
  }

  lemma {:induction false} FlattenConcat(a: seq<seq<Word>>, b: seq<seq<Word>>)
    ensures Flatten(a + b) == Flatten(a) + Flatten(b)
  {
    if a == [] {
      assert a + b == b;
    } else {
      assert (a + b)[0] == a[0] && (a + b)[1..] == a[1..] + b;
      FlattenConcat(a[1..], b);
    }
  }

  /** The simplified feedback a word would get from `guess` at positions `pos` .. LastPosition. */
  function Pattern(guess: Word, pos: nat, word: Word): seq<Color>
    requires IsWord(guess) && IsWord(word)
    decreases LastPosition + 1 - pos
  {
    if pos > LastPosition then [] else [Classify(guess, pos, word)] + Pattern(guess, pos + 1, word)
  }

  /** All words of a pool get the same simplified feedback from positions `pos` on. */
  predicate SamePattern(guess: Word, pos: nat, pool: seq<Word>)
    requires IsWord(guess) && AllWords(pool)
  {
    forall v, w | v in pool && w in pool :: Pattern(guess, pos, v) == Pattern(guess, pos, w)
  }

  /**
   * The tree built for a guess partitions the pool: its leaves hold every word
   * of the pool exactly as often as the pool does.
   */
  lemma {:induction false} TreeLeavesPartitionPool(guess: Word, pos: nat, pool: seq<Word>)
    requires IsWord(guess) && AllWords(pool)
    ensures multiset(Flatten(Leaves(BuildNode(guess, pos, pool)))) == multiset(pool)
    decreases LastPosition + 1 - pos
  {
    var node := BuildNode(guess, pos, pool);
    if |pool| <= MinPoolSize || pos > LastPosition {
      assert Flatten([pool]) == pool + Flatten([]);
    } else {
      var b := Partition(guess, pos, pool);
      assert multiset(b.green) + multiset(b.yellow) + multiset(b.grey) == multiset(pool) by {
        PartitionProperties(guess, pos, pool);
      }
      TreeLeavesPartitionPool(guess, pos + 1, b.green);
      TreeLeavesPartitionPool(guess, pos + 1, b.yellow);
      TreeLeavesPartitionPool(guess, pos + 1, b.grey);
      InnerLeavesFlatten(node);
    }
  }

  /** The words at the leaves of an inner node are those at the leaves of its three children. */
  lemma InnerLeavesFlatten(node: Node)
    requires node.Inner?
    ensures multiset(Flatten(Leaves(node)))
         == multiset(Flatten(Leaves(node.green))) + multiset(Flatten(Leaves(node.yellow))) + multiset(Flatten(Leaves(node.grey)))
  {
    FlattenConcat(Leaves(node.green) + Leaves(node.yellow), Leaves(node.grey));
    FlattenConcat(Leaves(node.green), Leaves(node.yellow));
  }

  /** Every leaf of `node` holds words of `pool` that all get the same simplified feedback from `pos` on. */
  predicate LeavesAreClasses(guess: Word, pos: nat, pool: seq<Word>, node: Node)
    requires IsWord(guess) && AllWords(pool)
  {
    forall leaf | leaf in Leaves(node) :: (forall w | w in leaf :: w in pool) && SamePattern(guess, pos, leaf)
  }

  /**
   * Every leaf of the tree built for a guess is a feedback class: its words
   * come from the pool and all get the same simplified feedback.
   */
  lemma {:induction false} TreeLeavesSharePattern(guess: Word, pos: nat, pool: seq<Word>)
    requires IsWord(guess) && AllWords(pool)
    ensures LeavesAreClasses(guess, pos, pool, BuildNode(guess, pos, pool))
    decreases LastPosition + 1 - pos
  {
    if |pool| <= MinPoolSize || pos > LastPosition {
      LeafIsClass(guess, pos, pool);
    } else {
      var b := Partition(guess, pos, pool);
      TreeLeavesSharePattern(guess, pos + 1, b.green);
      TreeLeavesSharePattern(guess, pos + 1, b.yellow);
      TreeLeavesSharePattern(guess, pos + 1, b.grey);
      ChildLeavesSharePattern(guess, pos, pool, Green);
      ChildLeavesSharePattern(guess, pos, pool, Yellow);
      ChildLeavesSharePattern(guess, pos, pool, Grey);
      InnerLeavesAreClasses(guess, pos, pool, BuildNode(guess, pos, pool));
    }
  }

  /** A leaf holding at most one word, or built past the last position, is a feedback class. */
  lemma LeafIsClass(guess: Word, pos: nat, pool: seq<Word>)
    requires IsWord(guess) && AllWords(pool) && (|pool| <= MinPoolSize || pos > LastPosition)
    ensures LeavesAreClasses(guess, pos, pool, Leaf(pool))
  {
    assert Leaves(Leaf(pool)) == [pool];
    if |pool| <= MinPoolSize {
      if |pool| == 1 {
        assert forall v | v in pool :: v == pool[0];
      }
    } else {
      assert forall w | IsWord(w) :: Pattern(guess, pos, w) == [];
    }
  }

  /** An inner node whose three children have feedback classes as leaves has feedback classes as leaves. */
  lemma InnerLeavesAreClasses(guess: Word, pos: nat, pool: seq<Word>, node: Node)
    requires IsWord(guess) && AllWords(pool) && node.Inner?
    requires LeavesAreClasses(guess, pos, pool, node.green)
    requires LeavesAreClasses(guess, pos, pool, node.yellow)
    requires LeavesAreClasses(guess, pos, pool, node.grey)
    ensures LeavesAreClasses(guess, pos, pool, node)
  {
    assert Leaves(node) == Leaves(node.green) + Leaves(node.yellow) + Leaves(node.grey);
  }

  /** The leaves of the child built for bucket `c` at `pos` are feedback classes from `pos` on. */
  lemma ChildLeavesSharePattern(guess: Word, pos: nat, pool: seq<Word>, c: Color)
    requires IsWord(guess) && AllWords(pool) && pos <= LastPosition
    requires AllWords(Select(guess, pos, pool, c))
    requires var bucket := Select(guess, pos, pool, c);
      LeavesAreClasses(guess, pos + 1, bucket, BuildNode(guess, pos + 1, bucket))
    ensures LeavesAreClasses(guess, pos, pool, BuildNode(guess, pos + 1, Select(guess, pos, pool, c)))
  {
    var bucket := Select(guess, pos, pool, c);
    SelectMembers(guess, pos, pool, c);
    forall leaf | leaf in Leaves(BuildNode(guess, pos + 1, bucket))
      ensures (forall w | w in leaf :: w in pool) && SamePattern(guess, pos, leaf)
    {
      ExtendSamePattern(guess, pos, leaf, c);
    }
  }

  /** Words in one bucket at `pos` that agree from `pos + 1` on agree from `pos` on. */
  lemma ExtendSamePattern(guess: Word, pos: nat, words: seq<Word>, c: Color)
    requires IsWord(guess) && AllWords(words) && pos <= LastPosition
    requires forall w | w in words :: Classify(guess, pos, w) == c
    requires SamePattern(guess, pos + 1, words)
    ensures SamePattern(guess, pos, words)
  {
  }

  /** How many words of `pool` (with repetition) share the simplified feedback pattern of `word`. */
  function SameCount(guess: Word, pos: nat, pool: seq<Word>, word: Word): nat
    requires IsWord(guess) && AllWords(pool) && IsWord(word)
  {
    if pool == [] then 0
    else
      var last := pool[|pool| - 1];
      SameCount(guess, pos, pool[..|pool| - 1], word) + (if Pattern(guess, pos, last) == Pattern(guess, pos, word) then 1 else 0)
  }

  /** The sum, over the words of `words`, of the size of their pattern class in `pool`. */
  function ClassSum(guess: Word, pos: nat, pool: seq<Word>, words: seq<Word>): nat
    requires IsWord(guess) && AllWords(pool) && AllWords(words)
  {
    if words == [] then 0
    else ClassSum(guess, pos, pool, words[..|words| - 1]) + SameCount(guess, pos, pool, words[|words| - 1])
  }

  /**
   * The expected number of candidates left once the answer's simplified feedback
   * from `pos` on is known, when the answer is drawn uniformly from the pool:
   * the mean size of the answer's pattern class (1 for an empty pool, as in the
   * scorer's base case).
   */
  function MeanClassSize(guess: Word, pos: nat, pool: seq<Word>): real
    requires IsWord(guess) && AllWords(pool)
  {
    Mean(ClassSum(guess, pos, pool, pool) as real, |pool| as real)
  }

  /** Restricting the pool to the bucket of `word` at `pos` keeps `word`'s class, now judged from `pos + 1` on. */
  lemma {:induction false} SameCountSplit(guess: Word, pos: nat, pool: seq<Word>, word: Word)
    requires IsWord(guess) && AllWords(pool) && IsWord(word) && pos <= LastPosition
    ensures AllWords(Select(guess, pos, pool, Classify(guess, pos, word)))
    ensures SameCount(guess, pos, pool, word)
         == SameCount(guess, pos + 1, Select(guess, pos, pool, Classify(guess, pos, word)), word)
  {
    var c := Classify(guess, pos, word);
    if pool != [] {
      var rest := pool[..|pool| - 1];
      var last := pool[|pool| - 1];
      assert forall v | v in rest :: v in pool;
      SameCountSplit(guess, pos, rest, word);
      var sel := Select(guess, pos, rest, c);
      var p, q := Pattern(guess, pos, last), Pattern(guess, pos, word);
      assert p == [Classify(guess, pos, last)] + Pattern(guess, pos + 1, last);
      assert q == [c] + Pattern(guess, pos + 1, word);
      assert p == q <==> Classify(guess, pos, last) == c && Pattern(guess, pos + 1, last) == Pattern(guess, pos + 1, word) by {
        if p == q {
          assert p[0] == q[0] && p[1..] == q[1..];
        }
      }
      if Classify(guess, pos, last) == c {
        assert (sel + [last])[..|sel|] == sel;
      }
    }
  }

  /** The pattern-class sum at `pos` is the sum of the pattern-class sums of the three buckets at `pos + 1`. */
  lemma {:induction false} ClassSumSplit(guess: Word, pos: nat, pool: seq<Word>, words: seq<Word>)
    requires IsWord(guess) && AllWords(pool) && AllWords(words) && pos <= LastPosition
    ensures var b, q := Partition(guess, pos, pool), Partition(guess, pos, words);
      && AllWords(b.green) && AllWords(b.yellow) && AllWords(b.grey)
      && AllWords(q.green) && AllWords(q.yellow) && AllWords(q.grey)
      && ClassSum(guess, pos, pool, words)
         == ClassSum(guess, pos + 1, b.green, q.green)
          + ClassSum(guess, pos + 1, b.yellow, q.yellow)
          + ClassSum(guess, pos + 1, b.grey, q.grey)
  {
    var b, q := Partition(guess, pos, pool), Partition(guess, pos, words);
    if words != [] {
      var rest := words[..|words| - 1];
      var last := words[|words| - 1];
      assert forall v | v in rest :: v in words;
      assert words == rest + [last];
      ClassSumSplit(guess, pos, pool, rest);
      SameCountSplit(guess, pos, pool, last);
      ClassSumBucketStep(guess, pos, pool, rest, last, Green);
      ClassSumBucketStep(guess, pos, pool, rest, last, Yellow);
      ClassSumBucketStep(guess, pos, pool, rest, last, Grey);
    }
  }

  /** Adding a word to `words` adds its class size to the class sum of its own bucket only. */
  lemma ClassSumBucketStep(guess: Word, pos: nat, pool: seq<Word>, rest: seq<Word>, last: Word, c: Color)
    requires IsWord(guess) && AllWords(pool) && AllWords(rest) && IsWord(last) && pos <= LastPosition
    ensures AllWords(Select(guess, pos, pool, c)) && AllWords(Select(guess, pos, rest, c))
    ensures AllWords(Select(guess, pos, rest + [last], c))
    ensures ClassSum(guess, pos + 1, Select(guess, pos, pool, c), Select(guess, pos, rest + [last], c))
         == ClassSum(guess, pos + 1, Select(guess, pos, pool, c), Select(guess, pos, rest, c))
          + (if Classify(guess, pos, last) == c then SameCount(guess, pos + 1, Select(guess, pos, pool, c), last) else 0)
  {
    SelectAppend(guess, pos, rest, last, c);
    var sel := Select(guess, pos, rest, c);
    assert (sel + [last])[..|sel|] == sel;
    assert forall w | w in rest + [last] :: IsWord(w);
  }

  /** Past the last position every word has the empty pattern, so every class is the whole pool. */
  lemma {:induction false} ClassSumPastEnd(guess: Word, pos: nat, pool: seq<Word>, words: seq<Word>)
    requires IsWord(guess) && AllWords(pool) && AllWords(words) && pos > LastPosition
    ensures ClassSum(guess, pos, pool, words) == |words| * |pool|
  {
    if words != [] {
      var rest := words[..|words| - 1];
      assert forall v | v in rest :: v in words;
      ClassSumPastEnd(guess, pos, pool, rest);
      SameCountPastEnd(guess, pos, pool, words[|words| - 1]);
    }
  }

  lemma {:induction false} SameCountPastEnd(guess: Word, pos: nat, pool: seq<Word>, word: Word)
    requires IsWord(guess) && AllWords(pool) && IsWord(word) && pos > LastPosition
    ensures SameCount(guess, pos, pool, word) == |pool|
  {
    if pool != [] {
      var rest := pool[..|pool| - 1];
      assert forall v | v in rest :: v in pool;
      SameCountPastEnd(guess, pos, rest, word);
    }
  }

  /**
   * The recursive, bucket-weighted score is the mean size of the answer's
   * pattern class: the expected number of candidates that get the same
   * simplified feedback as the answer.
   */
  lemma {:induction false} ScoreIsMeanClassSize(guess: Word, pos: nat, pool: seq<Word>)
    requires IsWord(guess) && AllWords(pool)
    ensures CalculateScore(guess, pos, pool) == MeanClassSize(guess, pos, pool)
    decreases LastPosition + 1 - pos
  {
    var n := |pool|;
    if n <= MinPoolSize {
      if n == 1 {
        assert pool[..0] == [];
        assert ClassSum(guess, pos, pool, pool) == SameCount(guess, pos, pool, pool[0]) == 1;
      }
    } else if pos > LastPosition {
      ClassSumPastEnd(guess, pos, pool, pool);
      SquareOverSize(n);
    } else {
      var b := Partition(guess, pos, pool);
      ScoreRecursiveCase(guess, pos, pool);
      ScoreIsMeanClassSize(guess, pos + 1, b.green);
      ScoreIsMeanClassSize(guess, pos + 1, b.yellow);
      ScoreIsMeanClassSize(guess, pos + 1, b.grey);
      MeanClassSizeStep(guess, pos, pool);
    }
  }

  /** One step of the induction: if each bucket's score is its mean class size, so is the pool's. */
  lemma MeanClassSizeStep(guess: Word, pos: nat, pool: seq<Word>)
    requires IsWord(guess) && AllWords(pool) && MinPoolSize < |pool| && pos <= LastPosition
    requires var b := Partition(guess, pos, pool);
      && AllWords(b.green) && AllWords(b.yellow) && AllWords(b.grey)
      && CalculateScore(guess, pos + 1, b.green) == MeanClassSize(guess, pos + 1, b.green)
      && CalculateScore(guess, pos + 1, b.yellow) == MeanClassSize(guess, pos + 1, b.yellow)
      && CalculateScore(guess, pos + 1, b.grey) == MeanClassSize(guess, pos + 1, b.grey)
    ensures CalculateScore(guess, pos, pool) == MeanClassSize(guess, pos, pool)
  {
    var b := Partition(guess, pos, pool);
    PartitionSize(guess, pos, pool);
    ClassSumSplit(guess, pos, pool, pool);
    ScoreRecursiveCase(guess, pos, pool);
    WeightedMeans(|b.green| as real, |b.yellow| as real, |b.grey| as real,
      ClassSum(guess, pos + 1, b.green, b.green) as real,
      ClassSum(guess, pos + 1, b.yellow, b.yellow) as real,
      ClassSum(guess, pos + 1, b.grey, b.grey) as real,
      |pool| as real, ClassSum(guess, pos, pool, pool) as real);
  }

  /** The recursive case of the scorer, for a pool of several words with positions left. */
  lemma ScoreRecursiveCase(guess: Word, pos: nat, pool: seq<Word>)
    requires IsWord(guess) && AllWords(pool) && MinPoolSize < |pool| && pos <= LastPosition
    ensures var b := Partition(guess, pos, pool);
      && AllWords(b.green) && AllWords(b.yellow) && AllWords(b.grey)
      && CalculateScore(guess, pos, pool)
         == Weighted(|b.green| as real, |pool| as real, CalculateScore(guess, pos + 1, b.green))
          + Weighted(|b.yellow| as real, |pool| as real, CalculateScore(guess, pos + 1, b.yellow))
          + Weighted(|b.grey| as real, |pool| as real, CalculateScore(guess, pos + 1, b.grey))
  {
  }

  /** Past the last position a pool of several words is not split further: its score is its size. */
  lemma ScorePastLastPosition(guess: Word, pos: nat, pool: seq<Word>)
    requires IsWord(guess) && AllWords(pool) && LastPosition < pos && MinPoolSize < |pool|
    ensures CalculateScore(guess, pos, pool) == |pool| as real
  {
  }

  /**
   * The recursive case with the buckets, their scores and their sizes named:
   * the score is the size-weighted mean of the three bucket scores.
   */
  lemma ScoreFromBuckets(guess: Word, pos: nat, pool: seq<Word>, green: seq<Word>, yellow: seq<Word>, grey: seq<Word>,
                         sa: real, sb: real, sc: real)
    requires IsWord(guess) && AllWords(pool) && MinPoolSize < |pool| && pos <= LastPosition
    requires Partition(guess, pos, pool) == Buckets(green, yellow, grey)
    requires AllWords(green) && AllWords(yellow) && AllWords(grey)
    requires CalculateScore(guess, pos + 1, green) == sa
    requires CalculateScore(guess, pos + 1, yellow) == sb
    requires CalculateScore(guess, pos + 1, grey) == sc
    ensures |green| + |yellow| + |grey| == |pool|
    ensures CalculateScore(guess, pos, pool)
         == Weighted(|green| as real, (|green| + |yellow| + |grey|) as real, sa)
          + Weighted(|yellow| as real, (|green| + |yellow| + |grey|) as real, sb)
          + Weighted(|grey| as real, (|green| + |yellow| + |grey|) as real, sc)
  {
    PartitionSize(guess, pos, pool);
    ScoreRecursiveCase(guess, pos, pool);
  }

  /** A position at which the whole pool falls into one bucket does not split it, and leaves the score unchanged. */
  lemma ScoreUnsplit(guess: Word, pos: nat, pool: seq<Word>, c: Color)
    requires IsWord(guess) && AllWords(pool) && pos <= LastPosition
    requires forall w | w in pool :: Classify(guess, pos, w) == c
    ensures CalculateScore(guess, pos, pool) == CalculateScore(guess, pos + 1, pool)
  {
    if MinPoolSize < |pool| {
      var n := |pool| as real;
      SelectUniform(guess, pos, pool, c);
      SelectNone(guess, pos, pool, if c == Green then Yellow else Green);
      SelectNone(guess, pos, pool, if c == Grey then Yellow else Grey);
      ScoreRecursiveCase(guess, pos, pool);
      WholeShare(n, CalculateScore(guess, pos + 1, pool));
      EmptyShare(n, 1.0);
    }
  }

  /** The whole pool as one bucket contributes that bucket's score. */
  lemma WholeShare(n: real, score: real)
    requires n != 0.0
    ensures Weighted(n, n, score) == score
  {
  }

  /** A bucket's term in the recursive case of the scorer: its share of the pool times its score at `pos + 1`. */
  function BucketTerm(guess: Word, pos: nat, pool: seq<Word>, c: Color): real
    requires IsWord(guess) && AllWords(pool) && pos <= LastPosition && pool != []
  {
    var bucket := Select(guess, pos, pool, c);
    Weighted(|bucket| as real, |pool| as real, CalculateScore(guess, pos + 1, bucket))
  }

  /**
   * A bucket that no word of the pool falls into adds nothing to the score:
   * the score is the sum of the other two buckets' terms.
   */
  lemma EmptyBucketScore(guess: Word, pos: nat, pool: seq<Word>, c: Color)
    requires IsWord(guess) && AllWords(pool) && MinPoolSize < |pool| && pos <= LastPosition
    requires Select(guess, pos, pool, c) == []
    ensures CalculateScore(guess, pos, pool)
         == (if c == Green then 0.0 else BucketTerm(guess, pos, pool, Green))
          + (if c == Yellow then 0.0 else BucketTerm(guess, pos, pool, Yellow))
          + (if c == Grey then 0.0 else BucketTerm(guess, pos, pool, Grey))
  {
    ScoreRecursiveCase(guess, pos, pool);
    EmptyShare(|pool| as real, 1.0);
  }

  /** An empty bucket contributes nothing. */
  lemma EmptyShare(n: real, score: real)
    requires n != 0.0
    ensures Weighted(0.0, n, score) == 0.0
  {
  }

  /** When every bucket of the split scores 1, so does the pool, because the bucket shares add up to one. */
  lemma ScoreResolved(guess: Word, pos: nat, pool: seq<Word>, green: seq<Word>, yellow: seq<Word>, grey: seq<Word>)
    requires IsWord(guess) && AllWords(pool) && MinPoolSize < |pool| && pos <= LastPosition
    requires Partition(guess, pos, pool) == Buckets(green, yellow, grey)
    requires AllWords(green) && AllWords(yellow) && AllWords(grey)
    requires CalculateScore(guess, pos + 1, green) == 1.0
    requires CalculateScore(guess, pos + 1, yellow) == 1.0
    requires CalculateScore(guess, pos + 1, grey) == 1.0
    ensures CalculateScore(guess, pos, pool) == 1.0
  {
    PartitionSize(guess, pos, pool);
    ScoreRecursiveCase(guess, pos, pool);
    FractionsSumToOne(|green| as real, |yellow| as real, |grey| as real, |pool| as real);
  }

  /** Two words that the position tells apart end up in buckets of one word each, so the pair is resolved. */
  lemma ScoreTwoApart(guess: Word, pos: nat, pool: seq<Word>)
    requires IsWord(guess) && pos <= LastPosition
    requires |pool| == 2 && IsWord(pool[0]) && IsWord(pool[1])
    requires Classify(guess, pos, pool[0]) != Classify(guess, pos, pool[1])
    ensures AllWords(pool) && CalculateScore(guess, pos, pool) == 1.0
  {
    var x, y := pool[0], pool[1];
    assert pool == [x, y];
    assert forall w | w in pool :: w == x || w == y;
    forall c: Color
      ensures |Select(guess, pos, pool, c)| <= 1
    {
      SelectTwo(guess, pos, x, y, c);
    }
    var b := Partition(guess, pos, pool);
    ScoreResolved(guess, pos, pool, b.green, b.yellow, b.grey);
  }

  /** Past the last position the score `n` is the mean of `n` classes of size `n`. */
  lemma SquareOverSize(n: nat)
    requires 0 < n
    ensures (n * n) as real / n as real == n as real
  {
    assert (n * n) as real == n as real * n as real;
  }

  /** The mean of a value that is 1 for an empty bucket and `c / k` otherwise. */
  function Mean(c: real, k: real): real {
    if k == 0.0 then 1.0 else c / k
  }

  /** Weighting each bucket's mean class size by its share of the pool gives the mean over the whole pool. */
  lemma WeightedMeans(a: real, b: real, c: real, ca: real, cb: real, cc: real, total: real, sum: real)
    requires 0.0 <= a && 0.0 <= b && 0.0 <= c && a + b + c == total && total != 0.0
    requires (a == 0.0 ==> ca == 0.0) && (b == 0.0 ==> cb == 0.0) && (c == 0.0 ==> cc == 0.0)
    requires ca + cb + cc == sum
    ensures Weighted(a, total, Mean(ca, a)) + Weighted(b, total, Mean(cb, b)) + Weighted(c, total, Mean(cc, c))
         == Mean(sum, total)
  {
    WeightedMean(a, ca, total);
    WeightedMean(b, cb, total);
    WeightedMean(c, cc, total);
    SumOverTotal(ca, cb, cc, total, sum);
  }

  lemma SumOverTotal(x: real, y: real, z: real, total: real, sum: real)
    requires total != 0.0 && x + y + z == sum
    ensures x / total + y / total + z / total == sum / total
  {
    assert x / total + y / total + z / total == (x + y + z) / total;
  }

  lemma WeightedMean(k: real, c: real, total: real)
    requires total != 0.0 && (k == 0.0 ==> c == 0.0)
    ensures Weighted(k, total, Mean(c, k)) == c / total
  {
    if k != 0.0 {
      assert (k / total) * (c / k) == c / total;
    }
  }

  /** `recursive_build_tree`: the tree rooted at `guess` over the pool, and its score. */
  function RecursiveBuildTree(guess: Word, pool: seq<Word>): (r: (Tree, real))
    requires IsWord(guess) && AllWords(pool)
    ensures r.0.val == guess && r.0.rootNode.pool == pool
    ensures 1.0 <= r.1 && (pool != [] ==> r.1 <= |pool| as real)
    ensures r.1 == MeanClassSize(guess, 0, pool)
  {
    ScoreIsMeanClassSize(guess, 0, pool);
    (Tree(guess, BuildNode(guess, 0, pool)), CalculateScore(guess, 0, pool))
  }
}

/**
 * The concrete cases of the unit tests, over the answer list
 * birch, beech, cedar, ebony, maple: the split of the list for "birch" at the
 * first position, the expectimax score of "ebony" (exactly 7/5, the 1.40 of
 * the test), the score 1 of "birch" (the least score any guess can have), and
 * the first guess of an agent over that list.
 */
module Scenarios {
  import opened Partitioning
  import opened Scoring
  import opened Selection
  import opened Agent

  /** The answer list of the unit tests. */
  const FiveWords: seq<Word> := ["birch", "beech", "cedar", "ebony", "maple"]

  /** The bucket of each of the five words for the guess "birch" at the first position. */
  lemma FiveWordColors()
    ensures Classify("birch", 0, "birch") == Green && Classify("birch", 0, "beech") == Green
    ensures Classify("birch", 0, "cedar") == Grey && Classify("birch", 0, "ebony") == Yellow
    ensures Classify("birch", 0, "maple") == Grey
  {
    assert 'b' !in "cedar";
    assert "ebony"[1] == 'b';
    assert 'b' !in "maple";
  }

  /** Each bucket of the five-word answer list for the guess "birch" at the first position. */
  lemma FiveWordGreen()
    ensures Select("birch", 0, FiveWords, Green) == ["birch", "beech"]
  {
    FiveWordColors();
    SelectFive("birch", 0, "birch", "beech", "cedar", "ebony", "maple", Green);
  }

  lemma FiveWordYellow()
    ensures Select("birch", 0, FiveWords, Yellow) == ["ebony"]
  {
    FiveWordColors();
    SelectFive("birch", 0, "birch", "beech", "cedar", "ebony", "maple", Yellow);
  }

  lemma FiveWordGrey()
    ensures Select("birch", 0, FiveWords, Grey) == ["cedar", "maple"]
  {
    FiveWordColors();
    SelectFive("birch", 0, "birch", "beech", "cedar", "ebony", "maple", Grey);
  }

  /** The partition of the five-word answer list for the guess "birch" at the first position. */
  lemma FiveWordPartition()
    ensures Partition("birch", 0, FiveWords) == Buckets(["birch", "beech"], ["ebony"], ["cedar", "maple"])
  {
    FiveWordGreen();
    FiveWordYellow();
    FiveWordGrey();
  }


  /** The buckets of the five words for the guess "ebony" at the first position. */
  lemma EbonyColors0()
    ensures Classify("ebony", 0, "birch") == Grey && Classify("ebony", 0, "beech") == Yellow
    ensures Classify("ebony", 0, "cedar") == Yellow && Classify("ebony", 0, "ebony") == Green
    ensures Classify("ebony", 0, "maple") == Yellow
  {
    assert 'e' !in "birch";
    assert "beech"[1] == 'e' && "cedar"[1] == 'e' && "maple"[4] == 'e';
  }

  /** The buckets of the three yellow words for the guess "ebony" at the second position. */
  lemma EbonyColors1()
    ensures Classify("ebony", 1, "beech") == Yellow && Classify("ebony", 1, "cedar") == Grey
    ensures Classify("ebony", 1, "maple") == Grey
  {
    assert "beech"[0] == 'b';
    assert 'b' !in "cedar" && 'b' !in "maple";
  }

  /** None of the last three letters of "ebony" occurs in "cedar" or "maple". */
  lemma CedarMapleGrey()
    ensures Classify("ebony", 2, "cedar") == Grey && Classify("ebony", 2, "maple") == Grey
    ensures Classify("ebony", 3, "cedar") == Grey && Classify("ebony", 3, "maple") == Grey
    ensures Classify("ebony", 4, "cedar") == Grey && Classify("ebony", 4, "maple") == Grey
  {
    assert 'o' !in "cedar" && 'o' !in "maple";
    assert 'n' !in "cedar" && 'n' !in "maple";
    assert 'y' !in "cedar" && 'y' !in "maple";
  }

  /**
   * `ScoreFromBuckets` with the next position given by its number, so that
   * the bucket scores can be supplied as they are stated by the callers.
   */
  lemma ScoreAtNext(g: Word, pos: nat, next: nat, pool: seq<Word>, green: seq<Word>, yellow: seq<Word>, grey: seq<Word>,
                    sa: real, sb: real, sc: real)
    requires IsWord(g) && AllWords(pool) && MinPoolSize < |pool| && pos <= LastPosition && next == pos + 1
    requires Partition(g, pos, pool) == Buckets(green, yellow, grey)
    requires AllWords(green) && AllWords(yellow) && AllWords(grey)
    requires CalculateScore(g, next, green) == sa && CalculateScore(g, next, yellow) == sb
    requires CalculateScore(g, next, grey) == sc
    ensures |green| + |yellow| + |grey| == |pool|
    ensures CalculateScore(g, pos, pool)
         == Weighted(|green| as real, (|green| + |yellow| + |grey|) as real, sa)
          + Weighted(|yellow| as real, (|green| + |yellow| + |grey|) as real, sb)
          + Weighted(|grey| as real, (|green| + |yellow| + |grey|) as real, sc)
  {
    ScoreFromBuckets(g, pos, pool, green, yellow, grey, sa, sb, sc);
  }

  /** Two words that fall into the grey bucket at every position from the third on stay together: their pair scores 2. */
  lemma PairTogether(g: Word, y: Word, z: Word)
    requires IsWord(g) && IsWord(y) && IsWord(z)
    requires Classify(g, 2, y) == Grey && Classify(g, 2, z) == Grey
    requires Classify(g, 3, y) == Grey && Classify(g, 3, z) == Grey
    requires Classify(g, 4, y) == Grey && Classify(g, 4, z) == Grey
    ensures AllWords([y, z]) && CalculateScore(g, 2, [y, z]) == 2.0
  {
    var pool := [y, z];
    assert forall w | w in pool :: w == y || w == z;
    ScoreUnsplit(g, 2, pool, Grey);
    ScoreUnsplit(g, 3, pool, Grey);
    ScoreUnsplit(g, 4, pool, Grey);
    ScorePastLastPosition(g, 5, pool);
  }

  /** Three words coloured yellow, grey, grey at the second position, split into their buckets. */
  lemma ThreeWordSplit(g: Word, x: Word, y: Word, z: Word)
    requires IsWord(g) && IsWord(x) && IsWord(y) && IsWord(z)
    requires Classify(g, 1, x) == Yellow && Classify(g, 1, y) == Grey && Classify(g, 1, z) == Grey
    ensures AllWords([x, y, z]) && Partition(g, 1, [x, y, z]) == Buckets([], [x], [y, z])
  {
    assert forall w | w in [x, y, z] :: w == x || w == y || w == z;
    assert Select(g, 1, [x, y, z], Green) == [] by {
      SelectThree(g, 1, x, y, z, Green);
    }
    assert Select(g, 1, [x, y, z], Yellow) == [x] by {
      SelectThree(g, 1, x, y, z, Yellow);
    }
    assert Select(g, 1, [x, y, z], Grey) == [y, z] by {
      SelectThree(g, 1, x, y, z, Grey);
    }
  }

  /**
   * Three words that the second position splits into nothing, one word and a
   * pair scoring 2 score 0/3 * 1 + 1/3 * 1 + 2/3 * 2 = 5/3.
   */
  lemma ThreeWordScore(g: Word, pool: seq<Word>, yellow: seq<Word>, grey: seq<Word>)
    requires IsWord(g) && AllWords(pool) && |pool| == 3
    requires Partition(g, 1, pool) == Buckets([], yellow, grey)
    requires |yellow| == 1 && |grey| == 2 && AllWords(yellow) && AllWords(grey)
    requires CalculateScore(g, 2, grey) == 2.0
    ensures CalculateScore(g, 1, pool) == 5.0 / 3.0
  {
    ScoreAtNext(g, 1, 2, pool, [], yellow, grey, 1.0, 1.0, 2.0);
  }

  /** Five words coloured grey, yellow, yellow, green, yellow at the first position, split into their buckets. */
  lemma FiveWordSplit(g: Word, w0: Word, w1: Word, w2: Word, w3: Word, w4: Word)
    requires IsWord(g) && IsWord(w0) && IsWord(w1) && IsWord(w2) && IsWord(w3) && IsWord(w4)
    requires Classify(g, 0, w0) == Grey && Classify(g, 0, w1) == Yellow && Classify(g, 0, w2) == Yellow
    requires Classify(g, 0, w3) == Green && Classify(g, 0, w4) == Yellow
    ensures AllLonger([w0, w1, w2, w3, w4], 0)
    ensures Partition(g, 0, [w0, w1, w2, w3, w4]) == Buckets([w3], [w1, w2, w4], [w0])
  {
    assert Select(g, 0, [w0, w1, w2, w3, w4], Green) == [w3] by {
      SelectFive(g, 0, w0, w1, w2, w3, w4, Green);
    }
    assert Select(g, 0, [w0, w1, w2, w3, w4], Yellow) == [w1, w2, w4] by {
      SelectFive(g, 0, w0, w1, w2, w3, w4, Yellow);
    }
    assert Select(g, 0, [w0, w1, w2, w3, w4], Grey) == [w0] by {
      SelectFive(g, 0, w0, w1, w2, w3, w4, Grey);
    }
  }

  /**
   * A pool that the first position splits into one green word, three yellow
   * words scoring 5/3 and one grey word scores 1/5 * 1 + 3/5 * 5/3 + 1/5 * 1 = 7/5.
   */
  lemma FiveWordScore(g: Word, pool: seq<Word>, green: seq<Word>, yellow: seq<Word>, grey: seq<Word>)
    requires IsWord(g) && AllWords(pool) && |pool| == 5
    requires Partition(g, 0, pool) == Buckets(green, yellow, grey)
    requires |green| == 1 && |yellow| == 3 && |grey| == 1
    requires AllWords(green) && AllWords(yellow) && AllWords(grey)
    requires CalculateScore(g, 1, yellow) == 5.0 / 3.0
    ensures CalculateScore(g, 0, pool) == 7.0 / 5.0
  {
    ScoreAtNext(g, 0, 1, pool, green, yellow, grey, 1.0, 5.0 / 3.0, 1.0);
    SevenFifths();
  }

  /** The weighted sum for buckets of sizes 1, 3 and 1 scoring 1, 5/3 and 1. */
  lemma SevenFifths()
    ensures Weighted(1 as real, (1 + 3 + 1) as real, 1.0) + Weighted(3 as real, (1 + 3 + 1) as real, 5.0 / 3.0)
          + Weighted(1 as real, (1 + 3 + 1) as real, 1.0) == 7.0 / 5.0
  {
  }

  /**
   * Five words that the first position splits into a single green word, three
   * yellow words and a single grey word, where the second position splits the
   * yellow words into one word and a pair that no later position separates,
   * score 7/5.
   */
  lemma EbonyShape(g: Word, w0: Word, w1: Word, w2: Word, w3: Word, w4: Word)
    requires IsWord(g) && IsWord(w0) && IsWord(w1) && IsWord(w2) && IsWord(w3) && IsWord(w4)
    requires Classify(g, 0, w0) == Grey && Classify(g, 0, w1) == Yellow && Classify(g, 0, w2) == Yellow
    requires Classify(g, 0, w3) == Green && Classify(g, 0, w4) == Yellow
    requires Classify(g, 1, w1) == Yellow && Classify(g, 1, w2) == Grey && Classify(g, 1, w4) == Grey
    requires Classify(g, 2, w2) == Grey && Classify(g, 2, w4) == Grey
    requires Classify(g, 3, w2) == Grey && Classify(g, 3, w4) == Grey
    requires Classify(g, 4, w2) == Grey && Classify(g, 4, w4) == Grey
    ensures AllWords([w0, w1, w2, w3, w4]) && CalculateScore(g, 0, [w0, w1, w2, w3, w4]) == 7.0 / 5.0
  {
    var pool := [w0, w1, w2, w3, w4];
    assert AllWords(pool) by {
      assert forall w | w in pool :: w == w0 || w == w1 || w == w2 || w == w3 || w == w4;
    }
    PairTogether(g, w2, w4);
    ThreeWordSplit(g, w1, w2, w4);
    ThreeWordScore(g, [w1, w2, w4], [w1], [w2, w4]);
    FiveWordSplit(g, w0, w1, w2, w3, w4);
    FiveWordScore(g, pool, [w3], [w1, w2, w4], [w0]);
  }

  /** `recursive_build_tree("ebony")` over the five answers scores exactly 7/5, i.e. 1.40. */
  lemma EbonyScore()
    ensures AllWords(FiveWords) && RecursiveBuildTree("ebony", FiveWords).1 == 7.0 / 5.0
  {
    EbonyColors0();
    EbonyColors1();
    CedarMapleGrey();
    EbonyShape("ebony", "birch", "beech", "cedar", "ebony", "maple");
  }

  /** The second and third letters of "birch" against its green and grey buckets. */
  lemma BirchColors()
    ensures Classify("birch", 1, "birch") == Green && Classify("birch", 1, "beech") == Grey
    ensures Classify("birch", 1, "cedar") == Grey && Classify("birch", 1, "maple") == Grey
    ensures Classify("birch", 2, "cedar") == Yellow && Classify("birch", 2, "maple") == Grey
  {
    assert 'i' !in "beech" && 'i' !in "cedar" && 'i' !in "maple";
    assert "cedar"[4] == 'r';
    assert 'r' !in "maple";
  }

  /** Two words that share a grey at the second position and differ at the third are told apart there: their pair scores 1. */
  lemma PairApartLater(g: Word, y: Word, z: Word)
    requires IsWord(g) && IsWord(y) && IsWord(z)
    requires Classify(g, 1, y) == Grey && Classify(g, 1, z) == Grey
    requires Classify(g, 2, y) != Classify(g, 2, z)
    ensures AllWords([y, z]) && CalculateScore(g, 1, [y, z]) == 1.0
  {
    var pool := [y, z];
    assert forall w | w in pool :: w == y || w == z;
    ScoreUnsplit(g, 1, pool, Grey);
    ScoreTwoApart(g, 2, pool);
  }

  /** A pool of five that the first position splits into two pairs scoring 1 and a single word scores 1. */
  lemma FiveWordResolved(g: Word, pool: seq<Word>, green: seq<Word>, yellow: seq<Word>, grey: seq<Word>)
    requires IsWord(g) && AllWords(pool) && |pool| == 5
    requires Partition(g, 0, pool) == Buckets(green, yellow, grey)
    requires |green| == 2 && |yellow| == 1 && |grey| == 2
    requires AllWords(green) && AllWords(yellow) && AllWords(grey)
    requires CalculateScore(g, 1, green) == 1.0 && CalculateScore(g, 1, grey) == 1.0
    ensures CalculateScore(g, 0, pool) == 1.0
  {
    ScoreAtNext(g, 0, 1, pool, green, yellow, grey, 1.0, 1.0, 1.0);
  }

  /** Five words coloured green, green, grey, yellow, grey at the first position, split into their buckets. */
  lemma BirchSplit(g: Word, w0: Word, w1: Word, w2: Word, w3: Word, w4: Word)
    requires IsWord(g) && IsWord(w0) && IsWord(w1) && IsWord(w2) && IsWord(w3) && IsWord(w4)
    requires Classify(g, 0, w0) == Green && Classify(g, 0, w1) == Green && Classify(g, 0, w2) == Grey
    requires Classify(g, 0, w3) == Yellow && Classify(g, 0, w4) == Grey
    ensures Partition(g, 0, [w0, w1, w2, w3, w4]) == Buckets([w0, w1], [w3], [w2, w4])
  {
    assert Select(g, 0, [w0, w1, w2, w3, w4], Green) == [w0, w1] by {
      SelectFive(g, 0, w0, w1, w2, w3, w4, Green);
    }
    assert Select(g, 0, [w0, w1, w2, w3, w4], Yellow) == [w3] by {
      SelectFive(g, 0, w0, w1, w2, w3, w4, Yellow);
    }
    assert Select(g, 0, [w0, w1, w2, w3, w4], Grey) == [w2, w4] by {
      SelectFive(g, 0, w0, w1, w2, w3, w4, Grey);
    }
  }

  /**
   * Five words that the first position splits into a pair told apart at the
   * second position, a single word and a pair told apart at the third
   * position score 1: every one of them is identified.
   */
  lemma BirchShape(g: Word, w0: Word, w1: Word, w2: Word, w3: Word, w4: Word)
    requires IsWord(g) && IsWord(w0) && IsWord(w1) && IsWord(w2) && IsWord(w3) && IsWord(w4)
    requires Classify(g, 0, w0) == Green && Classify(g, 0, w1) == Green && Classify(g, 0, w2) == Grey
    requires Classify(g, 0, w3) == Yellow && Classify(g, 0, w4) == Grey
    requires Classify(g, 1, w0) != Classify(g, 1, w1)
    requires Classify(g, 1, w2) == Grey && Classify(g, 1, w4) == Grey && Classify(g, 2, w2) != Classify(g, 2, w4)
    ensures AllWords([w0, w1, w2, w3, w4]) && CalculateScore(g, 0, [w0, w1, w2, w3, w4]) == 1.0
  {
    var pool := [w0, w1, w2, w3, w4];
    assert AllWords(pool) by {
      assert forall w | w in pool :: w == w0 || w == w1 || w == w2 || w == w3 || w == w4;
    }
    BirchSplit(g, w0, w1, w2, w3, w4);
    ScoreTwoApart(g, 1, [w0, w1]);
    PairApartLater(g, w2, w4);
    FiveWordResolved(g, pool, [w0, w1], [w3], [w2, w4]);
  }

  /**
   * `recursive_build_tree("birch")` over the five answers scores 1: every
   * answer is told apart after the guess (the lowest score there is), so
   * "birch" is a best first guess.
   */
  lemma BirchScore()
    ensures AllWords(FiveWords) && RecursiveBuildTree("birch", FiveWords).1 == 1.0
  {
    FiveWordColors();
    BirchColors();
    BirchShape("birch", "birch", "beech", "cedar", "ebony", "maple");
  }

  /**
   * With the five answers as candidates and as pool, the search can only end
   * on "birch": it is the first candidate and it scores 1.
   */
  lemma FiveWordFirstBest(i: nat)
    requires AllWords(FiveWords) && IsFirstMin(Scores(FiveWords, FiveWords), i)
    ensures i == 0 && FiveWords[i] == "birch"
  {
    BirchScore();
    ResolvedFirstWins(FiveWords, FiveWords, i);
  }

  /** The search over the five answers can only end on "birch". */
  lemma FiveWordBestGuess(w: Word)
    requires AllWords(FiveWords) && IsBestGuess(FiveWords, FiveWords, w)
    ensures w == "birch"
  {
    BirchScore();
    ResolvedFirstIsBest(FiveWords, FiveWords, w);
  }

  /** With the five answers as both word lists, the first guess is "birch". */
  method FirstGuessOfFive() returns (r: Word)
    ensures r == "birch"
  {
    BirchScore();
    var agent := new MyWordleAgent(FiveWords, FiveWords);
    r := agent.FirstGuess();
    FiveWordBestGuess(r);
  }
}

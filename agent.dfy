/**
 * `MyWordleAgent`: the state the agent keeps between the calls a game makes
 * (`first_guess`, then `report_feedback` and `next_guess` in turn), and the
 * cache of best guesses keyed by the feedback received so far in the game.
 */
module Agent {
  import opened Options
  import opened Partitioning
  import opened Scoring
  import opened Selection

  /** `GUESS_RANDOM_POOL_SIZE`: with at most this many answers left, `next_guess` answers the first one without searching. */
  const GuessRandomPoolSize: nat := 3

  /** The colour names a game reports for the letters of a guess. */
  predicate IsColourName(s: string) {
    s == "green" || s == "yellow" || s == "gray"
  }

  /**
   * `''.join(feedback)`: the strings written one after the other, so the
   * joined string starts with the first part and ends with the last.
   */
  function Join(parts: seq<string>): (r: string)
    ensures parts == [] ==> r == ""
    ensures parts != [] ==> parts[0] <= r
    ensures parts != [] ==> |parts[|parts| - 1]| <= |r| && r[|r| - |parts[|parts| - 1]|..] == parts[|parts| - 1]
  {
    if parts == [] then "" else parts[0] + Join(parts[1..])
  }

  /** Joining two lists of strings one after the other joins their joins: the history key grows turn by turn. */
  lemma {:induction false} JoinAppend(a: seq<string>, b: seq<string>)
    ensures Join(a + b) == Join(a) + Join(b)
  {
    if a == [] {
      assert a + b == b;
    } else {
      assert (a + b)[1..] == a[1..] + b;
      JoinAppend(a[1..], b);
    }
  }

  /** No colour name starts another, so a string that starts with one names it. */
  lemma NamesPrefixFree(x: string, y: string, s: string, t: string)
    requires IsColourName(x) && IsColourName(y) && x + s == y + t
    ensures x == y && s == t
  {
    assert (x + s)[0] == x[0] && (x + s)[2] == x[2];
    assert (y + t)[0] == y[0] && (y + t)[2] == y[2];
    assert x == y;
    assert s == (x + s)[|x|..];
    assert t == (y + t)[|y|..];
  }

  /**
   * Different lists of colour names join to different strings, so the
   * history key `feedback_so_far` determines the feedback received so far.
   */
  lemma {:induction false} JoinInjective(a: seq<string>, b: seq<string>)
    requires forall i | 0 <= i < |a| :: IsColourName(a[i])
    requires forall i | 0 <= i < |b| :: IsColourName(b[i])
    requires Join(a) == Join(b)
    ensures a == b
  {
    if a != [] && b != [] {
      NamesPrefixFree(a[0], b[0], Join(a[1..]), Join(b[1..]));
      JoinInjective(a[1..], b[1..]);
    }
  }

  /** The search-based agent and the fields its methods update. */
  class MyWordleAgent {
    /** `allowed`: the words the agent may guess. */
    const allowed: seq<Word>
    /** `possible`: the words that may be the answer. */
    const possible: seq<Word>
    /** `pool`: the answers still consistent with the feedback of the current game. */
    var pool: seq<Word>
    /** `can_guess`: the words searched over. */
    var canGuess: seq<Word>
    /** `cache`: the best guess found for each non-empty history key. */
    var cache: map<string, Word>
    /** `feedback_so_far`: the colour names reported in the current game, joined; `None` before the first game. */
    var feedbackSoFar: Option<string>
    /** `guess`: the first guess, searched for once and reused in every game. */
    var guess: Option<Word>

    /**
     * The words have at least five letters, the pool only ever holds possible
     * answers, the search runs over the allowed words, every cache key is a
     * non-empty history holding an allowed word, and the remembered first
     * guess is the outcome of the search over all possible answers.
     */
    predicate Valid()
      reads this
    {
      && AllWords(allowed) && AllWords(possible)
      && (forall w | w in pool :: w in possible)
      && canGuess == allowed
      && (forall key | key in cache :: key != "" && cache[key] in allowed)
      && (guess.Some? ==> IsBestGuess(allowed, possible, guess.value))
    }

    /** `__init__`: a fresh agent, before any game. */
    constructor (allowed: seq<Word>, possible: seq<Word>)
      requires AllWords(allowed) && AllWords(possible)
      ensures Valid()
      ensures this.allowed == allowed && this.possible == possible
      ensures pool == possible && canGuess == allowed && cache == map[]
      ensures feedbackSoFar == None && guess == None
    {
      this.allowed := allowed;
      this.possible := possible;
      pool := possible;
      canGuess := allowed;
      cache := map[];
      feedbackSoFar := None;
      guess := None;
    }

    /**
     * `find_guess`: the tree of the first guessable word with the least
     * score, recorded under a non-empty history key unless that key already
     * has a guess (`setdefault`).
     */
    method FindGuess() returns (best: Tree)
      requires Valid() && |canGuess| > 0 && feedbackSoFar.Some?
      modifies this
      ensures Valid()
      ensures IsBestGuess(canGuess, pool, best.val) && best == RecursiveBuildTree(best.val, pool).0
      ensures pool == old(pool) && canGuess == old(canGuess)
      ensures feedbackSoFar == old(feedbackSoFar) && guess == old(guess)
      ensures feedbackSoFar.value == "" || feedbackSoFar.value in old(cache) ==> cache == old(cache)
      ensures feedbackSoFar.value != "" && feedbackSoFar.value !in old(cache) ==>
                cache == old(cache)[feedbackSoFar.value := best.val]
      ensures forall key | key in old(cache) :: key in cache && cache[key] == old(cache)[key]
    {
      var index;
      best, index := FindBest(canGuess, pool);
      FirstMinIsBest(canGuess, pool, index);
      var key := feedbackSoFar.value;
      if |key| != 0 && key !in cache {
        cache := cache[key := best.val];
      }
    }

    /**
     * `first_guess`: starts a game with every possible answer in the pool and
     * an empty history, and answers the first guess, searching for it only
     * the first time.
     */
    method FirstGuess() returns (r: Word)
      requires Valid() && (guess.Some? || |allowed| > 0)
      modifies this
      ensures Valid()
      ensures pool == possible && canGuess == allowed && feedbackSoFar == Some("") && cache == old(cache)
      ensures guess == Some(r) && IsBestGuess(allowed, possible, r)
      ensures old(guess).Some? ==> r == old(guess).value
    {
      pool := possible;
      canGuess := allowed;
      feedbackSoFar := Some("");
      if guess.None? {
        ghost var before := cache;
        assert before == old(cache);
        var tree := FindGuess();
        assert cache == before;
        guess := Some(tree.val);
      }
      r := guess.value;
    }

    /**
     * `next_guess`: the first answer left when at most three are left, the
     * cached guess when the history has one, and otherwise the outcome of a
     * new search (which the cache then records).
     */
    method NextGuess() returns (r: Word)
      requires Valid() && |pool| > 0
      requires |pool| > GuessRandomPoolSize ==> feedbackSoFar.Some? && (feedbackSoFar.value in cache || |canGuess| > 0)
      modifies this
      ensures Valid()
      ensures pool == old(pool) && canGuess == old(canGuess)
      ensures feedbackSoFar == old(feedbackSoFar) && guess == old(guess)
      ensures |pool| <= GuessRandomPoolSize ==> r == pool[0] && cache == old(cache)
      ensures |pool| > GuessRandomPoolSize && feedbackSoFar.value in old(cache) ==>
                r == old(cache)[feedbackSoFar.value] && cache == old(cache)
      ensures |pool| > GuessRandomPoolSize && feedbackSoFar.value !in old(cache) ==>
                && IsBestGuess(canGuess, pool, r)
                && cache == if feedbackSoFar.value != "" then old(cache)[feedbackSoFar.value := r] else old(cache)
    {
      if |pool| <= GuessRandomPoolSize {
        return pool[0];
      }
      if feedbackSoFar.value in cache {
        return cache[feedbackSoFar.value];
      }
      var tree := FindGuess();
      r := tree.val;
    }

    /**
     * `report_feedback`: keeps the answers the filter lets through and adds
     * the joined colour names to the history. The filter is a parameter that
     * keeps only words of the pool.
     */
    method ReportFeedback(g: Word, feedback: seq<string>, filter: (Word, seq<string>, seq<Word>) -> seq<Word>)
      requires Valid() && feedbackSoFar.Some?
      requires forall w | w in filter(g, feedback, pool) :: w in pool
      modifies this
      ensures Valid()
      ensures pool == filter(g, feedback, old(pool))
      ensures feedbackSoFar == Some(old(feedbackSoFar).value + Join(feedback))
      ensures canGuess == old(canGuess) && cache == old(cache) && guess == old(guess)
    {
      pool := filter(g, feedback, pool);
      feedbackSoFar := Some(feedbackSoFar.value + Join(feedback));
    }
  }

  /** Two first guesses in a row answer the same word: the search runs at most once. */
  method FirstGuessTwice(agent: MyWordleAgent) returns (first: Word, second: Word)
    requires agent.Valid() && (agent.guess.Some? || |agent.allowed| > 0)
    modifies agent
    ensures first == second
  {
    first := agent.FirstGuess();
    second := agent.FirstGuess();
  }
}

# A model of the search-based Wordle agent

This project models `MyWordleAgent` from `agent.py` in Dafny and proves properties of the model. The agent is a Wordle player that picks each guess by an expectimax-style search. Its parts are:

- **Partition step** (`get_pool`). For a hypothetical guess and one letter position, the words of a pool are split into green, yellow and grey buckets by a simplified per-position rule:
  - green when the word has the guess's letter at that position;
  - yellow when the guess's letter occurs elsewhere in the word;
  - grey otherwise.
- **Recursive scorer** (`calculate_score`, `recursive_build_tree`). The score of a guess is the expected number of candidates left after it. The pool is split at positions 0 to 4 in turn, and each bucket's score is weighted by its share of the pool. A pool of at most one word scores 1. Past the last position, a pool scores its size.
- **Guess selection** (`find_guess`). A scan over the guessable words keeps the first one with the least score, and records it in a cache keyed by the feedback history.
- **Agent state** (`first_guess`, `next_guess`, `report_feedback`). These methods update the fields `pool`, `can_guess`, `cache`, `feedback_so_far` and `guess`.

Modules, one concept each:

| file | module | what it holds |
|---|---|---|
| `options.dfy` | `Options` | `Option`, for Python's `None` |
| `partition.dfy` | `Partitioning` | the bucket rule, `Partition` (what `get_pool` computes) and the loop method `GetPool` |
| `scoring.dfy` | `Scoring` | `CalculateScore`; the `Node`/`Tree` datatypes and `BuildNode`; `RecursiveBuildTree`; a reference definition of the score as the mean size of the answer's feedback class |
| `scenarios.dfy` | `Scenarios` | the unit tests' five-word list: its split for "birch", the exact scores of "ebony" and "birch", and the first guess over it |
| `selection.dfy` | `Selection` | the first-minimum scan `FindBest` and its specification `IsFirstMin` |
| `agent.dfy` | `Agent` | the class `MyWordleAgent`, and the joining of feedback into history keys |

Scores are Dafny `real`s. They are ratios of counts, so the model computes them exactly; the 1.40 of the unit test is exactly 7/5.

`filter_possible_words` is not part of this model. It comes from `util`, which is not shown, so `ReportFeedback` takes it as a function parameter. The parameter's contract is that it keeps only words of the pool.

## Model

| member | source | states |
|---|---|---|
| Partitioning.Classify | agent.py:333-335 | Green exactly when the word has the guess's letter at `pos`; yellow exactly when it has it elsewhere but not at `pos`; grey exactly when the letter does not occur in the word at all. |
| Partitioning.GetPool | agent.py:318-336 | The appending loop returns exactly the three buckets of `Partition`. |
| Partitioning.SelectMembers | agent.py:332-335 | A word is in bucket `c` if and only if it is in the pool and the bucket rule sends it to `c`. |
| Partitioning.PartitionProperties | agent.py:331-336 | Green holds exactly the pool words with the guess's letter at `pos`. Yellow holds exactly the others that contain that letter, and grey holds the rest. The buckets are pairwise disjoint. Their multisets add up to the pool's multiset, so their sizes sum to the pool's size. |
| Partitioning.SelectConcat | agent.py:331-336 | Bucketing a concatenation gives the concatenation of the buckets, so every bucket keeps the pool's order. |
| Partitioning.SelectCount | agent.py:332-335 | A word occurs in its own bucket as often as in the pool, and never in the other two. |
| Scenarios.FiveWordPartition | unitTests.py:19-24 | Splitting the five-word list for "birch" at position 0 gives `(["birch","beech"], ["ebony"], ["cedar","maple"])`. |
| Scoring.CalculateScore | agent.py:287-316 | The score lies between 1 and the pool's size. It is exactly 1 for a pool of at most one word, whatever the position. |
| Scoring.ScorePastLastPosition | agent.py:304 | Past position 4, a pool of several words scores its size. |
| Scoring.ScoreRecursiveCase | agent.py:306-316 | Otherwise the score is the sum, over the three buckets, of the bucket's share of the pool times its score at `pos + 1`. |
| Scoring.EmptyBucketScore | agent.py:306-316 | When no word of the pool falls into bucket `c`, the score is the sum of the other two buckets' terms: an empty bucket contributes 0. |
| Scoring.WeightedSum | agent.py:312-316 | When each bucket's score lies between 1 and its size, the weighted sum lies between 1 and the pool's size. |
| Scoring.ScoreIsMeanClassSize | agent.py:287-316 | The recursive score equals an independent definition: the mean, over the pool, of how many pool words get the same simplified feedback as the answer. |
| Scoring.TreeLeavesPartitionPool | agent.py:306-310 | The leaves of the tree built for a guess hold every word of the pool exactly as often as the pool does. |
| Scoring.TreeLeavesSharePattern | agent.py:306-310 | Every leaf holds pool words that all get the same simplified feedback. |
| Scoring.ScoreUnsplit | agent.py:306-316 | A position that puts the whole pool into one bucket leaves the score unchanged. |
| Scoring.ScoreTwoApart | agent.py:303-316 | Two words that a position tells apart score 1 from that position on. |
| Scoring.BuildNode | agent.py:302-310 | The node holds the pool. It is split exactly when the pool has more than one word and `pos` is at most 4, and then its children hold the green, yellow and grey buckets of `Partition` at `pos`. |
| Scoring.RecursiveBuildTree | agent.py:273-285 | The tree holds the guess and has the pool at its root. The score lies between 1 and the pool's size, and equals the mean feedback-class size from position 0. |
| Scenarios.EbonyScore | unitTests.py:4-10 | The guess "ebony" over the five-word list scores exactly 7/5. |
| Scenarios.BirchScore | unitTests.py:12-17 | The guess "birch" over the five-word list scores exactly 1. |
| Selection.FindBest | agent.py:261-268 | The scan with strict `<` ends on the first candidate whose score is at most every score and below every earlier one. It returns that candidate's tree. |
| Selection.ScanStep | agent.py:266-268 | One step of the scan keeps the first-minimum invariant, whether or not it replaces the best. |
| Selection.FirstMinUnique | agent.py:266 | Because of the strict `<`, the first minimum is unique, so ties go to the earliest candidate. |
| Selection.ResolvedFirstWins | agent.py:261-268 | When the first candidate scores the least possible score, 1, the scan ends on it. |
| Scenarios.FiveWordFirstBest | unitTests.py:12-17 | Over the five-word list as both candidates and pool, the scan ends on index 0, "birch". |
| Agent.Join | agent.py:250 | The joined string of no parts is empty; otherwise it starts with the first part and ends with the last. |
| Agent.JoinAppend | agent.py:250 | Joining two lists of feedback joins their joins, so the history key grows turn by turn. |
| Agent.JoinInjective | agent.py:58-62 | Different lists of colour names ("green", "yellow", "gray") join to different strings, so a history key determines the feedback it was built from. |
| Agent.MyWordleAgent.constructor | agent.py:200-213 | A fresh agent has the pool `possible`, searches `allowed`, has an empty cache, no history and no first guess. |
| Agent.MyWordleAgent.FindGuess | agent.py:252-271 | The result is the first best candidate over the current pool. The cache gains the current history key only when the key is non-empty and not yet present, and no existing entry changes. |
| Agent.MyWordleAgent.FirstGuess | agent.py:215-226 | The pool is reset to `possible` and the history to "". The result is the first best word of `allowed` over `possible`. A remembered first guess is returned unchanged, and the cache is not touched. |
| Agent.FirstGuessTwice | agent.py:225-226 | Two first guesses in a row return the same word. |
| Scenarios.FirstGuessOfFive | unitTests.py:12-17 | An agent over the five-word list answers "birch" as its first guess. |
| Agent.MyWordleAgent.NextGuess | agent.py:228-239 | With at most three answers left, the result is the first one. Otherwise it is the cached guess when the history has one. Otherwise it is the first best candidate over the pool, and the cache records it. |
| Agent.MyWordleAgent.ReportFeedback | agent.py:241-250 | The pool becomes the filter's result and the history grows by the joined colour names. Nothing else changes. |

`Agent.MyWordleAgent.Valid` is preserved by every method. It says five things:

- every allowed and every possible word has at least five letters, so positions 0 to 4 can be indexed;
- the pool only ever holds possible answers;
- the search runs over `allowed`;
- every cache key is a non-empty history that maps to an allowed word;
- the remembered first guess is the outcome of the search over all possible answers.

## Left out

- `RandomAgent` (agent.py:90-109) is not modelled. It depends on random shuffling and printing.
- `filter_possible_words` lives in `util`, which is not part of this model. It is a parameter of `ReportFeedback`. That it keeps only words of the pool is a precondition, not a proven fact.
- `Tree` and `Node` are heap objects in the source, filled in by `calculate_score` (agent.py:308-310). Here they are the datatypes `Tree` and `Node`, built by `BuildNode` next to the score. Aliasing and in-place child updates are not modelled.
- Python floats and `float('inf')` are not modelled. Scores are exact reals, and "no best yet" is `None`. The float rounding of the unit test's comparison with 1.40 is not captured.
- Crash paths are preconditions:
  - an empty `can_guess` (`None.val`, agent.py:225 and 270);
  - an empty pool (`pool[0]`, agent.py:237);
  - `next_guess` searching, or `report_feedback` appending, before any `first_guess` (`feedback_so_far` still `None`);
  - words shorter than five letters (`LAST_POSITION = 4`).
- Agent.MyWordleAgent.NextGuess: a cached guess is not proved to be the best over the current pool. That would need the filter to be a fixed function of the history, which the model does not assume.
- Unused imports, `initialize_agent` and the unittest runner are not modelled.
## Notes on the code

- At position 0, `get_pool` puts "beech" into the green bucket for the guess "birch", because both start with "b", as unitTests.py:23-24 expects (`Scenarios.FiveWordPartition`).
- The history key `feedback_so_far` is the concatenation of the colour names "green", "yellow" and "gray" (agent.py:250), not one symbol per letter (`Agent.JoinInjective`).
- The unit test at unitTests.py:16-17 accepts "birch" or "beech" as the first guess. With the strict `<` of agent.py:266, the scan always picks "birch", because "birch" comes first and scores exactly 1 (`Scenarios.FirstGuessOfFive`).

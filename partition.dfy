/**
 * The partition step of the search-based Wordle agent (`get_pool`).
 *
 * For a hypothetical guess and one letter position, every word of a pool is put
 * into one of three buckets by a simplified, per-position feedback rule:
 * green when the word has the guess's letter at that position, yellow when the
 * letter occurs somewhere else in the word, grey otherwise.
 */
module Partitioning {

  /** A word is a string; the agent works on lower-case five-letter words. */
  type Word = string

  /** The last letter position the scorer looks at (`LAST_POSITION`). */
  const LastPosition: nat := 4

  /** A word long enough for every position 0..LastPosition to be indexed. */
  predicate IsWord(w: Word) {
    LastPosition < |w|
  }

  predicate AllWords(words: seq<Word>) {
    forall w | w in words :: IsWord(w)
  }

  /** Every word of `words` can be indexed at `pos`. */
  predicate AllLonger(words: seq<Word>, pos: nat) {
    forall w | w in words :: pos < |w|
  }

  /** The three bucket labels. */
  datatype Color = Green | Yellow | Grey

  /** The bucket a word falls into at position `pos` for the given guess. */
  function Classify(guess: Word, pos: nat, word: Word): (c: Color)
    requires pos < |guess| && pos < |word|
    ensures c == Green <==> word[pos] == guess[pos]
    ensures c == Yellow <==> word[pos] != guess[pos] && guess[pos] in word
    ensures c == Grey <==> guess[pos] !in word
  {
    if guess[pos] == word[pos] then Green
    else if guess[pos] in word then Yellow
    else Grey
  }

  /**
   * The words of `pool` that fall into bucket `c`, in pool order. It is
   * defined from the end of the pool, as the appending loop builds it.
   */
  function Select(guess: Word, pos: nat, pool: seq<Word>, c: Color): (r: seq<Word>)
    requires pos < |guess| && AllLonger(pool, pos)
    ensures |r| <= |pool|
    ensures forall w | w in r :: w in pool
  {
    if pool == [] then []
    else
      var last := pool[|pool| - 1];
      assert forall w | w in pool[..|pool| - 1] :: w in pool;
      var rest := Select(guess, pos, pool[..|pool| - 1], c);
      if Classify(guess, pos, last) == c then rest + [last] else rest
  }

  /** A word is in bucket `c` exactly when it is in the pool and the bucket rule sends it to `c`. */
  lemma {:induction false} SelectMembers(guess: Word, pos: nat, pool: seq<Word>, c: Color)
    requires pos < |guess| && AllLonger(pool, pos)
    ensures forall w :: w in Select(guess, pos, pool, c) <==> w in pool && Classify(guess, pos, w) == c
  {
    if pool != [] {
      var rest := pool[..|pool| - 1];
      assert pool == rest + [pool[|pool| - 1]];
      assert forall w | w in rest :: w in pool;
      SelectMembers(guess, pos, rest, c);
    }
  }

  /** The result of `get_pool`: the green, yellow and grey buckets. */
  datatype Buckets = Buckets(green: seq<Word>, yellow: seq<Word>, grey: seq<Word>)

  /** The partition `get_pool` computes, as a function of its inputs. */
  function Partition(guess: Word, pos: nat, pool: seq<Word>): Buckets
    requires pos < |guess| && AllLonger(pool, pos)
  {
    Buckets(Select(guess, pos, pool, Green), Select(guess, pos, pool, Yellow), Select(guess, pos, pool, Grey))
  }

  /** `get_pool`: one pass over the pool, appending each word to its bucket. */
  method GetPool(guess: Word, pos: nat, pool: seq<Word>) returns (green: seq<Word>, yellow: seq<Word>, grey: seq<Word>)
    requires pos < |guess| && AllLonger(pool, pos)
    ensures Buckets(green, yellow, grey) == Partition(guess, pos, pool)
  {
    green, yellow, grey := [], [], [];
    var i := 0;
    while i < |pool|
      invariant 0 <= i <= |pool|
      invariant green == Select(guess, pos, pool[..i], Green)
      invariant yellow == Select(guess, pos, pool[..i], Yellow)
      invariant grey == Select(guess, pos, pool[..i], Grey)
    {
      var word := pool[i];
      assert pool[..i + 1] == pool[..i] + [word];
      assert AllLonger(pool[..i], pos) by {
        assert forall v :: v in pool[..i] ==> v in pool;
      }
      SelectAppend(guess, pos, pool[..i], word, Green);
      SelectAppend(guess, pos, pool[..i], word, Yellow);
      SelectAppend(guess, pos, pool[..i], word, Grey);
      if guess[pos] == word[pos] {
        green := green + [word];
      } else if guess[pos] in word {
        yellow := yellow + [word];
      } else {
        grey := grey + [word];
      }
      i := i + 1;
    }
    assert pool[..i] == pool;
  }

  /** Appending a word to the pool appends it to its own bucket and leaves the other buckets alone. */
  lemma SelectAppend(guess: Word, pos: nat, pool: seq<Word>, w: Word, c: Color)
    requires pos < |guess| && AllLonger(pool, pos) && pos < |w|
    ensures AllLonger(pool + [w], pos)
    ensures Select(guess, pos, pool + [w], c)
         == Select(guess, pos, pool, c) + (if Classify(guess, pos, w) == c then [w] else [])
  {
    assert (pool + [w])[..|pool|] == pool;
  }

  /** Selecting from a concatenation selects from each part, in order: every bucket keeps the pool's order. */
  lemma {:induction false} SelectConcat(guess: Word, pos: nat, a: seq<Word>, b: seq<Word>, c: Color)
    requires pos < |guess| && AllLonger(a, pos) && AllLonger(b, pos)
    ensures AllLonger(a + b, pos)
    ensures Select(guess, pos, a + b, c) == Select(guess, pos, a, c) + Select(guess, pos, b, c)
  {
    assert AllLonger(a + b, pos) by {
      assert forall w :: w in a + b ==> w in a || w in b;
    }
    if b == [] {
      assert a + b == a;
    } else {
      var b', x := b[..|b| - 1], b[|b| - 1];
      assert b == b' + [x];
      assert a + b == (a + b') + [x];
      assert AllLonger(b', pos) by {
        assert forall w :: w in b' ==> w in b;
      }
      SelectConcat(guess, pos, a, b', c);
      SelectAppend(guess, pos, a + b', x, c);
      SelectAppend(guess, pos, b', x, c);
    }
  }

  /** When every word of the pool falls into bucket `c`, that bucket is the whole pool. */
  lemma {:induction false} SelectUniform(guess: Word, pos: nat, pool: seq<Word>, c: Color)
    requires pos < |guess| && AllLonger(pool, pos)
    requires forall w | w in pool :: Classify(guess, pos, w) == c
    ensures Select(guess, pos, pool, c) == pool
  {
    if pool != [] {
      var rest := pool[..|pool| - 1];
      assert pool == rest + [pool[|pool| - 1]];
      assert forall v :: v in rest ==> v in pool;
      SelectUniform(guess, pos, rest, c);
    }
  }

  /** When no word of the pool falls into bucket `c`, that bucket is empty. */
  lemma SelectNone(guess: Word, pos: nat, pool: seq<Word>, c: Color)
    requires pos < |guess| && AllLonger(pool, pos)
    requires forall w | w in pool :: Classify(guess, pos, w) != c
    ensures Select(guess, pos, pool, c) == []
  {
    SelectMembers(guess, pos, pool, c);
  }

  /** How often a word occurs in a bucket: as often as in the pool when the bucket is its own, otherwise never. */
  lemma {:induction false} SelectCount(guess: Word, pos: nat, pool: seq<Word>, c: Color, w: Word)
    requires pos < |guess| && AllLonger(pool, pos) && pos < |w|
    ensures multiset(Select(guess, pos, pool, c))[w] == if Classify(guess, pos, w) == c then multiset(pool)[w] else 0
  {
    if pool != [] {
      var rest := pool[..|pool| - 1];
      assert pool == rest + [pool[|pool| - 1]];
      assert AllLonger(rest, pos) by {
        assert forall v :: v in rest ==> v in pool;
      }
      SelectCount(guess, pos, rest, c, w);
    }
  }

  /**
   * The partition contract: each bucket holds exactly the words the bucket rule
   * sends there, the buckets share no word, and together they hold every word
   * of the pool exactly as often as the pool does, so their sizes sum to the
   * pool's size.
   */
  lemma PartitionProperties(guess: Word, pos: nat, pool: seq<Word>)
    requires pos < |guess| && AllLonger(pool, pos)
    ensures var b := Partition(guess, pos, pool);
      && (forall w :: w in b.green <==> w in pool && w[pos] == guess[pos])
      && (forall w :: w in b.yellow <==> w in pool && w[pos] != guess[pos] && guess[pos] in w)
      && (forall w :: w in b.grey <==> w in pool && w[pos] != guess[pos] && guess[pos] !in w)
      && (forall w :: !(w in b.green && w in b.yellow) && !(w in b.green && w in b.grey) && !(w in b.yellow && w in b.grey))
      && multiset(b.green) + multiset(b.yellow) + multiset(b.grey) == multiset(pool)
      && |b.green| + |b.yellow| + |b.grey| == |pool|
  {
    var b := Partition(guess, pos, pool);
    SelectMembers(guess, pos, pool, Green);
    SelectMembers(guess, pos, pool, Yellow);
    SelectMembers(guess, pos, pool, Grey);
    var sum := multiset(b.green) + multiset(b.yellow) + multiset(b.grey);
    forall w
      ensures sum[w] == multiset(pool)[w]
    {
      if w in pool {
        SelectCount(guess, pos, pool, Green, w);
        SelectCount(guess, pos, pool, Yellow, w);
        SelectCount(guess, pos, pool, Grey, w);
      } else {
        assert w !in b.green && w !in b.yellow && w !in b.grey;
      }
    }
    assert sum == multiset(pool);
    assert |sum| == |multiset(pool)|;
  }

  /** The bucket sizes add up to the pool's size. */
  lemma PartitionSize(guess: Word, pos: nat, pool: seq<Word>)
    requires pos < |guess| && AllLonger(pool, pos)
    ensures var b := Partition(guess, pos, pool);
      |b.green| + |b.yellow| + |b.grey| == |pool|
  {
    PartitionProperties(guess, pos, pool);
  }

  /** The bucket `c` of a pool of two words, one word at a time. */
  lemma SelectTwo(guess: Word, pos: nat, w0: Word, w1: Word, c: Color)
    requires pos < |guess| && pos < |w0| && pos < |w1|
    ensures AllLonger([w0, w1], pos)
    ensures Select(guess, pos, [w0, w1], c)
         == (if Classify(guess, pos, w0) == c then [w0] else [])
          + (if Classify(guess, pos, w1) == c then [w1] else [])
  {
    assert [w0] == [] + [w0];
    SelectAppend(guess, pos, [], w0, c);
    assert [w0, w1] == [w0] + [w1];
    SelectAppend(guess, pos, [w0], w1, c);
  }

  /** The bucket `c` of a pool of three words, one word at a time. */
  lemma SelectThree(guess: Word, pos: nat, w0: Word, w1: Word, w2: Word, c: Color)
    requires pos < |guess| && pos < |w0| && pos < |w1| && pos < |w2|
    ensures AllLonger([w0, w1, w2], pos)
    ensures Select(guess, pos, [w0, w1, w2], c)
         == (if Classify(guess, pos, w0) == c then [w0] else [])
          + (if Classify(guess, pos, w1) == c then [w1] else [])
          + (if Classify(guess, pos, w2) == c then [w2] else [])
  {
    assert [w0] == [] + [w0];
    SelectAppend(guess, pos, [], w0, c);
    assert [w0, w1] == [w0] + [w1];
    SelectAppend(guess, pos, [w0], w1, c);
    assert [w0, w1, w2] == [w0, w1] + [w2];
    SelectAppend(guess, pos, [w0, w1], w2, c);
  }

  /** The bucket `c` of a pool of five words, one word at a time. */
  lemma SelectFive(guess: Word, pos: nat, w0: Word, w1: Word, w2: Word, w3: Word, w4: Word, c: Color)
    requires pos < |guess| && pos < |w0| && pos < |w1| && pos < |w2| && pos < |w3| && pos < |w4|
    ensures AllLonger([w0, w1, w2, w3, w4], pos)
    ensures Select(guess, pos, [w0, w1, w2, w3, w4], c)
         == (if Classify(guess, pos, w0) == c then [w0] else [])
          + (if Classify(guess, pos, w1) == c then [w1] else [])
          + (if Classify(guess, pos, w2) == c then [w2] else [])
          + (if Classify(guess, pos, w3) == c then [w3] else [])
          + (if Classify(guess, pos, w4) == c then [w4] else [])
  {
    assert [w0] == [] + [w0];
    SelectAppend(guess, pos, [], w0, c);
    assert [w0, w1] == [w0] + [w1];
    SelectAppend(guess, pos, [w0], w1, c);
    assert [w0, w1, w2] == [w0, w1] + [w2];
    SelectAppend(guess, pos, [w0, w1], w2, c);
    assert [w0, w1, w2, w3] == [w0, w1, w2] + [w3];
    SelectAppend(guess, pos, [w0, w1, w2], w3, c);
    assert [w0, w1, w2, w3, w4] == [w0, w1, w2, w3] + [w4];
    SelectAppend(guess, pos, [w0, w1, w2, w3], w4, c);
  }
}

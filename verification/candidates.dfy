/**
 * The candidate filter: the words of a pool that agree with every
 * observation made so far in a game.
 */
module Candidates {
  import opened Codec

  /** One round of a game: the index of the guessed word and the code observed for it. */
  datatype Turn = Turn(guess: nat, code: int)

  /** Every dictionary word has the solver's word length. */
  predicate Dictionary(words: seq<string>)
  {
    forall i :: 0 <= i < |words| ==> |words[i]| == Len
  }

  /** Every index in xs names a dictionary word. */
  predicate Indices(words: seq<string>, xs: seq<nat>)
  {
    forall k :: 0 <= k < |xs| ==> xs[k] < |words|
  }

  /** Every guess of the history names a dictionary word. */
  predicate Guesses(words: seq<string>, past: seq<Turn>)
  {
    forall k :: 0 <= k < |past| ==> past[k].guess < |words|
  }

  /** Word w would have produced every code recorded in past. */
  predicate Consistent(words: seq<string>, past: seq<Turn>, w: nat)
    requires Dictionary(words) && Guesses(words, past) && w < |words|
  {
    forall k :: 0 <= k < |past| ==> Code(words[past[k].guess], words[w]) == past[k].code
  }

  /** The words of pool consistent with past, in pool order. */
  function Filter(words: seq<string>, past: seq<Turn>, pool: seq<nat>): (r: seq<nat>)
    requires Dictionary(words) && Guesses(words, past) && Indices(words, pool)
    ensures |r| <= |pool| && Indices(words, r)
    ensures forall k :: 0 <= k < |r| ==> r[k] in pool && Consistent(words, past, r[k])
  {
    if pool == [] then []
    else
      var last := pool[|pool| - 1];
      Filter(words, past, pool[..|pool| - 1]) + (if Consistent(words, past, last) then [last] else [])
  }

  /** a is obtained from b by deleting elements, keeping the order of the rest. */
  predicate Subseq(a: seq<nat>, b: seq<nat>)
    decreases |a| + |b|
  {
    if a == [] then true
    else if b == [] then false
    else (a[|a| - 1] == b[|b| - 1] && Subseq(a[..|a| - 1], b[..|b| - 1])) || Subseq(a, b[..|b| - 1])
  }

  lemma {:induction false} SubseqMembers(a: seq<nat>, b: seq<nat>)
    requires Subseq(a, b)
    ensures |a| <= |b|
    ensures forall x :: x in a ==> x in b
    decreases |a| + |b|
  {
    if a != [] {
      if a[|a| - 1] == b[|b| - 1] && Subseq(a[..|a| - 1], b[..|b| - 1]) {
        SubseqMembers(a[..|a| - 1], b[..|b| - 1]);
        assert a == a[..|a| - 1] + [a[|a| - 1]];
        assert b == b[..|b| - 1] + [b[|b| - 1]];
      } else {
        SubseqMembers(a, b[..|b| - 1]);
        assert b == b[..|b| - 1] + [b[|b| - 1]];
      }
    }
  }

  /** The filter keeps exactly the consistent members of the pool. */
  lemma {:induction false} FilterMembers(words: seq<string>, past: seq<Turn>, pool: seq<nat>, w: nat)
    requires Dictionary(words) && Guesses(words, past) && Indices(words, pool) && w < |words|
    ensures w in Filter(words, past, pool) <==> w in pool && Consistent(words, past, w)
  {
    if pool != [] {
      FilterMembers(words, past, pool[..|pool| - 1], w);
      assert pool == pool[..|pool| - 1] + [pool[|pool| - 1]];
    }
  }

  /** The filter's output is an order-preserving subsequence of the pool. */
  lemma {:induction false} FilterIsSubseq(words: seq<string>, past: seq<Turn>, pool: seq<nat>)
    requires Dictionary(words) && Guesses(words, past) && Indices(words, pool)
    ensures Subseq(Filter(words, past, pool), pool)
  {
    if pool != [] {
      var init := pool[..|pool| - 1];
      var last := pool[|pool| - 1];
      var r := Filter(words, past, pool);
      FilterIsSubseq(words, past, init);
      if Consistent(words, past, last) {
        assert r[..|r| - 1] == Filter(words, past, init);
      } else {
        assert r == Filter(words, past, init);
        SubseqNonEmpty(r, pool);
      }
    }
  }

  lemma SubseqNonEmpty(a: seq<nat>, b: seq<nat>)
    requires b != [] && Subseq(a, b[..|b| - 1])
    ensures Subseq(a, b)
  {
  }

  /** With no history the filter returns the pool unchanged. */
  lemma {:induction false} FilterNoHistory(words: seq<string>, pool: seq<nat>)
    requires Dictionary(words) && Indices(words, pool)
    ensures Filter(words, [], pool) == pool
  {
    if pool != [] {
      FilterNoHistory(words, pool[..|pool| - 1]);
      assert pool == pool[..|pool| - 1] + [pool[|pool| - 1]];
    }
  }

  /** Filtering a pool with one more element at its end. */
  lemma FilterSnoc(words: seq<string>, past: seq<Turn>, pool: seq<nat>, x: nat)
    requires Dictionary(words) && Guesses(words, past) && Indices(words, pool) && x < |words|
    ensures Indices(words, pool + [x])
    ensures Filter(words, past, pool + [x])
            == Filter(words, past, pool) + (if Consistent(words, past, x) then [x] else [])
  {
  }

  /** Filtering twice with the same history changes nothing. */
  lemma {:induction false} FilterIdempotent(words: seq<string>, past: seq<Turn>, pool: seq<nat>)
    requires Dictionary(words) && Guesses(words, past) && Indices(words, pool)
    ensures Filter(words, past, Filter(words, past, pool)) == Filter(words, past, pool)
  {
    if pool != [] {
      var init := pool[..|pool| - 1];
      var last := pool[|pool| - 1];
      var f := Filter(words, past, init);
      FilterIdempotent(words, past, init);
      assert pool == init + [last];
      FilterSnoc(words, past, init, last);
      if Consistent(words, past, last) {
        assert Filter(words, past, pool) == f + [last];
        FilterSnoc(words, past, f, last);
      } else {
        assert Filter(words, past, pool) == f;
      }
    }
  }

  lemma GuessesAppend(words: seq<string>, past: seq<Turn>, more: seq<Turn>)
    requires Guesses(words, past) && Guesses(words, more)
    ensures Guesses(words, past + more)
  {
  }

  /** Consistency with a concatenated history is consistency with both parts. */
  lemma ConsistentAppend(words: seq<string>, past: seq<Turn>, more: seq<Turn>, w: nat)
    requires Dictionary(words) && Guesses(words, past) && Guesses(words, more) && w < |words|
    ensures Guesses(words, past + more)
    ensures Consistent(words, past + more, w) <==> Consistent(words, past, w) && Consistent(words, more, w)
  {
    var both := past + more;
    GuessesAppend(words, past, more);
    if Consistent(words, past, w) && Consistent(words, more, w) {
      forall k | 0 <= k < |both|
        ensures Code(words[both[k].guess], words[w]) == both[k].code
      {
        if k >= |past| {
          assert both[k] == more[k - |past|];
        }
      }
    }
    if Consistent(words, both, w) {
      forall k | 0 <= k < |past|
        ensures Code(words[past[k].guess], words[w]) == past[k].code
      {
        assert both[k] == past[k];
      }
      forall k | 0 <= k < |more|
        ensures Code(words[more[k].guess], words[w]) == more[k].code
      {
        assert both[|past| + k] == more[k];
      }
    }
  }

  /** Filtering with a longer history is filtering the result of the shorter one. */
  lemma {:induction false} FilterCompose(words: seq<string>, past: seq<Turn>, more: seq<Turn>, pool: seq<nat>)
    requires Dictionary(words) && Guesses(words, past) && Guesses(words, more) && Indices(words, pool)
    ensures Guesses(words, past + more)
    ensures Filter(words, past + more, pool) == Filter(words, more, Filter(words, past, pool))
  {
    GuessesAppend(words, past, more);
    if pool != [] {
      var init := pool[..|pool| - 1];
      var last := pool[|pool| - 1];
      assert pool == init + [last];
      var f := Filter(words, past, init);
      FilterCompose(words, past, more, init);
      ConsistentAppend(words, past, more, last);
      FilterSnoc(words, past + more, init, last);
      FilterSnoc(words, past, init, last);
      if Consistent(words, past, last) {
        assert Filter(words, past, pool) == f + [last];
        FilterSnoc(words, more, f, last);
      } else {
        assert Filter(words, past, pool) == f;
      }
    }
  }

  /** Extending the history can only shrink the candidates, and keeps their order. */
  lemma FilterMonotone(words: seq<string>, past: seq<Turn>, more: seq<Turn>, pool: seq<nat>)
    requires Dictionary(words) && Guesses(words, past) && Guesses(words, more) && Indices(words, pool)
    ensures Guesses(words, past + more)
    ensures Subseq(Filter(words, past + more, pool), Filter(words, past, pool))
    ensures forall w :: w in Filter(words, past + more, pool) ==> w in Filter(words, past, pool)
  {
    FilterCompose(words, past, more, pool);
    FilterIsSubseq(words, more, Filter(words, past, pool));
    SubseqMembers(Filter(words, past + more, pool), Filter(words, past, pool));
  }

  /** The candidates depend only on which observations were made, not on their order. */
  lemma FilterOrderFree(words: seq<string>, past: seq<Turn>, past': seq<Turn>, pool: seq<nat>)
    requires Dictionary(words) && Guesses(words, past) && Guesses(words, past') && Indices(words, pool)
    requires forall t :: t in past <==> t in past'
    ensures Filter(words, past, pool) == Filter(words, past', pool)
  {
    forall w | 0 <= w < |words|
      ensures Consistent(words, past, w) == Consistent(words, past', w)
    {
      if Consistent(words, past, w) {
        forall k | 0 <= k < |past'|
          ensures Code(words[past'[k].guess], words[w]) == past'[k].code
        {
          assert past'[k] in past;
        }
      }
      if Consistent(words, past', w) {
        forall k | 0 <= k < |past|
          ensures Code(words[past[k].guess], words[w]) == past[k].code
        {
          assert past[k] in past';
        }
      }
    }
    FilterSameTest(words, past, past', pool);
  }

  lemma {:induction false} FilterSameTest(words: seq<string>, past: seq<Turn>, past': seq<Turn>, pool: seq<nat>)
    requires Dictionary(words) && Guesses(words, past) && Guesses(words, past') && Indices(words, pool)
    requires forall w :: 0 <= w < |words| ==> Consistent(words, past, w) == Consistent(words, past', w)
    ensures Filter(words, past, pool) == Filter(words, past', pool)
  {
    if pool != [] {
      FilterSameTest(words, past, past', pool[..|pool| - 1]);
    }
  }

  /** Every recorded code is the code its guess really gets against sol. */
  predicate Truthful(words: seq<string>, past: seq<Turn>, sol: nat)
    requires Dictionary(words) && Guesses(words, past) && sol < |words|
  {
    forall k :: 0 <= k < |past| ==> past[k].code == Code(words[past[k].guess], words[sol])
  }

  /** A history of true observations about sol never filters sol out. */
  lemma KeepsSolution(words: seq<string>, past: seq<Turn>, pool: seq<nat>, sol: nat)
    requires Dictionary(words) && Guesses(words, past) && Indices(words, pool) && sol < |words|
    requires sol in pool && Truthful(words, past, sol)
    ensures sol in Filter(words, past, pool)
  {
  }

  /** ... and so sol is a candidate in every round of a game whose history is truthful. */
  lemma SolutionSurvives(words: seq<string>, past: seq<Turn>, pool: seq<nat>, sol: nat)
    requires Dictionary(words) && Guesses(words, past) && Indices(words, pool) && sol < |words|
    requires sol in pool && Truthful(words, past, sol)
    ensures forall k :: 0 <= k <= |past| ==> Guesses(words, past[..k]) && sol in Filter(words, past[..k], pool)
  {
    forall k | 0 <= k <= |past|
      ensures Guesses(words, past[..k]) && sol in Filter(words, past[..k], pool)
    {
      KeepsSolution(words, past[..k], pool, sol);
    }
  }
}

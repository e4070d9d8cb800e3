/**
 * The solver's context and its imperative operations: the dictionary with
 * its word-to-index map, the flat N*N feedback table and its fill, the
 * candidate filter, the histogram-and-argmax guess selector and the loop
 * that plays one game against a hidden solution.
 */
module Engine {
  import opened Codec
  import opened Candidates
  import opened Selection

  /** The forced first guess, used when the dictionary holds it. */
  const Opening: string := "slate"

  /** The pool of a game: every dictionary index, in order. */
  function AllIndices(n: nat): seq<nat>
  {
    seq(n, i requires 0 <= i < n => i)
  }

  /** The position of cell (r, c) in a row-major n*n table: inside it, and at a different place for every cell. */
  function Offset(r: nat, c: nat, n: nat): (k: nat)
    requires r < n && c < n
    ensures k < n * n
    ensures k / n == r && k % n == c
  {
    assert r * n + c < r * n + n == (r + 1) * n <= n * n;
    ModUnique(r * n + c, n, r, c);
    r * n + c
  }

  /** Every caller's shuffle returns a permutation of what it is given. */
  ghost predicate Shuffles(shuffle: (seq<nat>, nat) -> seq<nat>)
  {
    forall s: seq<nat>, t: nat :: multiset(shuffle(s, t)) == multiset(s)
  }

  /**
   * From turn `from` on, every guess of history was taken from the guess
   * pool of its round: the candidates left by the turns before it, or the
   * whole dictionary when those are few but not very few.
   */
  predicate FromGuessPools(words: seq<string>, history: seq<Turn>, from: nat)
    requires Dictionary(words) && Guesses(words, history)
  {
    forall k :: from <= k < |history| ==> InRoundPool(words, history[..k], history[k].guess)
  }

  /** g is in the guess pool of the round that follows the turns in past. */
  predicate InRoundPool(words: seq<string>, past: seq<Turn>, g: nat)
    requires Dictionary(words) && Guesses(words, past)
  {
    g in GuessPool(Filter(words, past, AllIndices(|words|)), AllIndices(|words|))
  }

  /**
   * g is the selector's choice in the round that follows the turns in past,
   * played as turn number `turn`: the first guess of that round's guess pool
   * with the strictly greatest score over the round's evaluation set.
   */
  ghost predicate SelectorPick(words: seq<string>, score: seq<nat> -> real, shuffle: (seq<nat>, nat) -> seq<nat>,
                               past: seq<Turn>, turn: nat, g: nat)
    requires Dictionary(words) && Guesses(words, past) && Shuffles(shuffle)
  {
    var pool := AllIndices(|words|);
    var cand := Filter(words, past, pool);
    var guessPool := GuessPool(cand, pool);
    EvaluationSetIndices(words, cand, shuffle(cand, turn), McThreshold, McSamples);
    exists k :: IsFirstBest(Scores(words, score, guessPool, EvaluationSet(cand, shuffle(cand, turn), McThreshold, McSamples)), k)
                && g == guessPool[k]
  }

  /** The selector's choice is taken from the round's guess pool. */
  lemma SelectorPickInPool(words: seq<string>, score: seq<nat> -> real, shuffle: (seq<nat>, nat) -> seq<nat>,
                           past: seq<Turn>, turn: nat, g: nat)
    requires Dictionary(words) && Guesses(words, past) && Shuffles(shuffle)
    requires SelectorPick(words, score, shuffle, past, turn, g)
    ensures InRoundPool(words, past, g)
  {
  }

  /**
   * From turn `from` on, every guess of history is the selector's choice in
   * its round (turn k of the game follows the first k turns of history).
   */
  ghost predicate FromSelector(words: seq<string>, score: seq<nat> -> real, shuffle: (seq<nat>, nat) -> seq<nat>,
                               history: seq<Turn>, from: nat)
    requires Dictionary(words) && Guesses(words, history) && Shuffles(shuffle)
  {
    forall k :: from <= k < |history| ==> SelectorPick(words, score, shuffle, history[..k], k, history[k].guess)
  }

  /** A history of selector choices is a history of guesses drawn from their rounds' guess pools. */
  lemma SelectorPicksInPools(words: seq<string>, score: seq<nat> -> real, shuffle: (seq<nat>, nat) -> seq<nat>,
                             history: seq<Turn>, from: nat)
    requires Dictionary(words) && Guesses(words, history) && Shuffles(shuffle)
    requires FromSelector(words, score, shuffle, history, from)
    ensures FromGuessPools(words, history, from)
  {
  }

  /** Recording the selector's choice of the current round keeps FromSelector. */
  lemma FromSelectorSnoc(words: seq<string>, score: seq<nat> -> real, shuffle: (seq<nat>, nat) -> seq<nat>,
                         history: seq<Turn>, from: nat, t: Turn)
    requires Dictionary(words) && Guesses(words, history) && Shuffles(shuffle) && t.guess < |words|
    requires FromSelector(words, score, shuffle, history, from)
    requires from <= |history| ==> SelectorPick(words, score, shuffle, history, |history|, t.guess)
    ensures Guesses(words, history + [t])
    ensures FromSelector(words, score, shuffle, history + [t], from)
  {
    var h := history + [t];
    assert Guesses(words, h);
    forall k | from <= k < |h|
      ensures SelectorPick(words, score, shuffle, h[..k], k, h[k].guess)
    {
      if k < |history| {
        assert h[..k] == history[..k] && h[k] == history[k];
      } else {
        assert h[..k] == history;
      }
    }
  }

  class Context {
    /** The dictionary, each word of length Len, indexed 0 .. n-1. */
    const words: seq<string>
    const n: nat
    /** Word text to index; for a repeated word, its last index. */
    const index: map<string, nat>
    /** Row-major feedback table: cell g*n + s is the code of guess g against solution s. */
    var fb: array<int>

    ghost predicate Valid()
      reads this
    {
      && n == |words|
      && Dictionary(words)
      && (forall w :: w in index <==> w in words)
      && (forall w :: w in index ==> index[w] < n && words[index[w]] == w)
    }

    /** The table is filled: every cell holds the feedback code of its row word against its column word. */
    ghost predicate Ready()
      reads this, fb
    {
      && Valid()
      && fb.Length == n * n
      && forall r, c :: 0 <= r < n && 0 <= c < n ==> fb[Offset(r, c, n)] == Code(words[r], words[c])
    }

    /** Builds the context of a dictionary: the words, their count and the word-to-index map. */
    constructor (dict: seq<string>)
      requires Dictionary(dict)
      ensures Valid() && words == dict && n == |dict| && fb.Length == 0
      ensures forall w :: w in index ==> forall i :: 0 <= i < n && words[i] == w ==> i <= index[w]
    {
      var m: map<string, nat> := map[];
      for i := 0 to |dict|
        invariant forall w :: w in m <==> w in dict[..i]
        invariant forall w :: w in m ==> m[w] < i && dict[m[w]] == w
        invariant forall w :: w in m ==> forall k :: 0 <= k < i && dict[k] == w ==> k <= m[w]
      {
        assert dict[..i + 1] == dict[..i] + [dict[i]];
        m := m[dict[i] := i];
      }
      assert dict[..|dict|] == dict;
      words := dict;
      n := |dict|;
      index := m;
      fb := new int[0];
    }

    /** Fills a fresh n*n table, one row at a time. */
    method Precompute()
      requires Valid()
      modifies this
      ensures Ready() && fresh(fb)
    {
      fb := new int[n * n];
      for i := 0 to n
        invariant Valid() && fresh(fb) && fb.Length == n * n
        invariant forall r, c :: 0 <= r < i && 0 <= c < n ==> fb[Offset(r, c, n)] == Code(words[r], words[c])
      {
        FillRow(i);
      }
    }

    /** Fills row i of the table and leaves every other row as it was. */
    method FillRow(i: nat)
      requires Valid() && fb.Length == n * n && i < n
      modifies fb
      ensures forall c :: 0 <= c < n ==> fb[Offset(i, c, n)] == Code(words[i], words[c])
      ensures forall r, c :: 0 <= r < n && r != i && 0 <= c < n ==> fb[Offset(r, c, n)] == old(fb[Offset(r, c, n)])
    {
      for j := 0 to n
        invariant forall c :: 0 <= c < j ==> fb[Offset(i, c, n)] == Code(words[i], words[c])
        invariant forall r, c :: 0 <= r < n && r != i && 0 <= c < n ==> fb[Offset(r, c, n)] == old(fb[Offset(r, c, n)])
      {
        var code := EncodeQuery(words[i], words[j]);
        fb[Offset(i, j, n)] := code;
      }
    }

    /** The code of guess i against solution j, read from the table. */
    function FB(i: nat, j: nat): (r: int)
      reads this, fb
      requires Ready() && i < n && j < n
      ensures r == Code(words[i], words[j])
      ensures 0 <= r < Codes
    {
      CodeRoundTrip(words[i], words[j]);
      fb[Offset(i, j, n)]
    }

    /** The members of pool consistent with every turn of past, in pool order. */
    method FilterCandidates(past: seq<Turn>, pool: seq<nat>) returns (out: seq<nat>)
      requires Ready() && Guesses(words, past) && Indices(words, pool)
      ensures out == Filter(words, past, pool)
    {
      out := [];
      for p := 0 to |pool|
        invariant out == Filter(words, past, pool[..p])
      {
        var w := pool[p];
        var ok := Agrees(past, w);
        ghost var prefix := pool[..p];
        assert pool[..p + 1] == prefix + [w];
        FilterSnoc(words, past, prefix, w);
        if ok {
          out := out + [w];
        }
        assert out == Filter(words, past, prefix + [w]);
      }
      assert pool[..|pool|] == pool;
    }

    /** Whether w would have produced every code recorded in past. */
    method Agrees(past: seq<Turn>, w: nat) returns (ok: bool)
      requires Ready() && Guesses(words, past) && w < n
      ensures ok == Consistent(words, past, w)
    {
      ok := true;
      for q := 0 to |past|
        invariant ok
        invariant forall k :: 0 <= k < q ==> Code(words[past[k].guess], words[w]) == past[k].code
      {
        if FB(past[q].guess, w) != past[q].code {
          ok := false;
          break;
        }
      }
    }

    /** The histogram of the codes guess g induces over evalSet. */
    method CountPatterns(g: nat, evalSet: seq<nat>) returns (counts: seq<nat>)
      requires Ready() && g < n && Indices(words, evalSet)
      ensures counts == Histogram(words, g, evalSet)
    {
      var buckets := new nat[Codes](_ => 0);
      for e := 0 to |evalSet|
        invariant forall c :: 0 <= c < Codes ==> buckets[c] == Occurrences(words, g, evalSet[..e], c)
      {
        assert evalSet[..e + 1] == evalSet[..e] + [evalSet[e]];
        HistogramSnoc(words, g, evalSet[..e], evalSet[e]);
        var code := FB(g, evalSet[e]);
        buckets[code] := buckets[code] + 1;
      }
      assert evalSet[..|evalSet|] == evalSet;
      counts := buckets[..];
    }

    /**
     * Scores every guess of guessPool by the histogram it induces over the
     * evaluation set and returns the first guess with the strictly greatest
     * score, or -1 when guessPool is empty.  shuffled stands for the random
     * shuffle of the candidates used when they are more than threshold.
     */
    method ChooseBestGuess(cand: seq<nat>, guessPool: seq<nat>, threshold: int, samples: nat,
                           shuffled: seq<nat>, score: seq<nat> -> real) returns (best: int)
      requires Ready() && Indices(words, cand) && Indices(words, guessPool)
      requires multiset(shuffled) == multiset(cand)
      requires NonNegative(score)
      ensures Indices(words, EvaluationSet(cand, shuffled, threshold, samples))
      ensures best == -1 <==> guessPool == []
      ensures guessPool != [] ==>
                exists k :: IsFirstBest(Scores(words, score, guessPool, EvaluationSet(cand, shuffled, threshold, samples)), k)
                            && best == guessPool[k]
    {
      var evalSet: seq<nat>;
      if |cand| > threshold {
        evalSet := shuffled;
        if |evalSet| > samples {
          evalSet := evalSet[..samples];
        }
      } else {
        evalSet := cand;
      }
      EvaluationSetIndices(words, cand, shuffled, threshold, samples);
      ghost var scores := Scores(words, score, guessPool, evalSet);

      best := -1;
      var bestScore: real := -1.0;
      ghost var bestK := 0;
      for m := 0 to |guessPool|
        invariant m == 0 ==> best == -1 && bestScore == -1.0
        invariant m > 0 ==> bestK < m && best == guessPool[bestK] && bestScore == scores[bestK]
        invariant m > 0 ==> forall x :: 0 <= x < m ==> scores[x] <= bestScore
        invariant m > 0 ==> forall x :: 0 <= x < bestK ==> scores[x] < bestScore
      {
        var counts := CountPatterns(guessPool[m], evalSet);
        var s := score(counts);
        if s > bestScore {
          bestScore := s;
          best := guessPool[m];
          bestK := m;
        }
      }
      if guessPool != [] {
        assert IsFirstBest(scores, bestK);
      }
    }

    /**
     * One round's choice of guess: filter the candidates from the history,
     * take the whole pool as guess pool when the candidates are few but not
     * very few, and guess the opening word on the first turn when the
     * dictionary has it, the selector's choice otherwise.  sol is the hidden
     * solution the history was observed against.
     */
    method NextGuess(history: seq<Turn>, turn: nat, shuffle: (seq<nat>, nat) -> seq<nat>,
                     score: seq<nat> -> real, ghost sol: nat) returns (guess: nat)
      requires Ready() && sol < n && Guesses(words, history) && Truthful(words, history, sol)
      requires Shuffles(shuffle) && NonNegative(score)
      ensures guess < n
      ensures sol in Filter(words, history, AllIndices(n))
      ensures turn == 0 && Opening in index ==> guess == index[Opening]
      ensures turn > 0 || Opening !in index ==> SelectorPick(words, score, shuffle, history, turn, guess)
    {
      var pool := AllIndices(n);
      assert sol in pool by { assert pool[sol] == sol; }
      var cand := FilterCandidates(history, pool);
      KeepsSolution(words, history, pool, sol);
      var guessPool := GuessPool(cand, pool);
      GuessPoolCovers(cand, pool);

      if turn == 0 && Opening in index {
        guess := index[Opening];
      } else {
        var choice := ChooseBestGuess(cand, guessPool, McThreshold, McSamples, shuffle(cand, turn), score);
        guess := choice;
      }
    }

    /**
     * One turn of a game: choose the round's guess, look up its code against
     * the hidden solution sol, and return the turn to record.
     */
    method PlayTurn(history: seq<Turn>, sol: nat, shuffle: (seq<nat>, nat) -> seq<nat>,
                    score: seq<nat> -> real, ghost from: nat) returns (t: Turn)
      requires Ready() && sol < n && Shuffles(shuffle) && NonNegative(score)
      requires Guesses(words, history) && Truthful(words, history, sol)
      requires from == if Opening in index then 1 else 0
      requires FromSelector(words, score, shuffle, history, from)
      ensures t.guess < n && t.code == Code(words[t.guess], words[sol])
      ensures history == [] && Opening in index ==> t.guess == index[Opening]
      ensures Guesses(words, history + [t]) && Truthful(words, history + [t], sol)
      ensures FromSelector(words, score, shuffle, history + [t], from)
    {
      var guess := NextGuess(history, |history|, shuffle, score, sol);
      var code := FB(guess, sol);
      t := Turn(guess, code);
      FromSelectorSnoc(words, score, shuffle, history, from, t);
      var h := history + [t];
      assert forall k :: 0 <= k < |history| ==> h[k] == history[k];
    }

    /**
     * Plays one game against the hidden solution sol: filter the candidates
     * from the history, pick a guess (the opening word on the first turn when
     * the dictionary has it, the selector otherwise), look up its code
     * against sol and record the turn, until the code is the solved code.
     * maxTurns bounds the number of turns.
     */
    method PlayWordle(sol: nat, shuffle: (seq<nat>, nat) -> seq<nat>, score: seq<nat> -> real, maxTurns: nat)
      returns (turns: nat, solved: bool, history: seq<Turn>)
      requires Ready() && sol < n
      requires Shuffles(shuffle) && NonNegative(score)
      ensures turns == |history| <= maxTurns
      ensures !solved ==> turns == maxTurns
      ensures Guesses(words, history) && Truthful(words, history, sol)
      ensures solved <==> history != [] && history[|history| - 1].code == SolvedCode
      ensures forall k :: 0 <= k < |history| - 1 ==> history[k].code != SolvedCode
      ensures history != [] && Opening in index ==> history[0].guess == index[Opening]
      ensures FromSelector(words, score, shuffle, history, if Opening in index then 1 else 0)
      ensures FromGuessPools(words, history, if Opening in index then 1 else 0)
    {
      history := [];
      turns := 0;
      solved := false;
      var solvedCode := EncodeString("22222");
      assert solvedCode == SolvedCode by {
        assert "22222"[..Len] == "22222";
        assert IsDigits("22222");
        SolvedString();
      }

      ghost var from := if Opening in index then 1 else 0;
      while turns < maxTurns
        invariant turns == |history| <= maxTurns && !solved
        invariant Guesses(words, history) && Truthful(words, history, sol)
        invariant forall k :: 0 <= k < |history| ==> history[k].code != SolvedCode
        invariant history != [] && Opening in index ==> history[0].guess == index[Opening]
        invariant FromSelector(words, score, shuffle, history, from)
      {
        var t := PlayTurn(history, sol, shuffle, score, from);
        turns := turns + 1;
        history := history + [t];
        if t.code == solvedCode {
          solved := true;
          break;
        }
      }
      SelectorPicksInPools(words, score, shuffle, history, if Opening in index then 1 else 0);
    }
  }
}

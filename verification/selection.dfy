/**
 * The pure side of guess selection: which candidates a guess is scored
 * against, the histogram of feedback codes a guess induces over them, the
 * first-strict-maximum choice among the guesses, and the guess-pool policy
 * of the game loop.  The entropy of a histogram is left abstract: a score is
 * any non-negative function of the histogram.
 */
module Selection {
  import opened Codec
  import opened Candidates

  /** Above this many candidates the score is estimated on a sample. */
  const McThreshold: int := 1500
  /** Size of that sample. */
  const McSamples: nat := 400
  /** The whole dictionary is the guess pool when NarrowLow <= candidates < NarrowHigh. */
  const NarrowLow: nat := 4
  const NarrowHigh: nat := 50

  /**
   * The evaluation set: the candidates themselves, or, when there are more
   * than threshold of them, the first samples elements of a shuffle of them.
   */
  function EvaluationSet(cand: seq<nat>, shuffled: seq<nat>, threshold: int, samples: nat): seq<nat>
  {
    if |cand| > threshold then
      if |shuffled| > samples then shuffled[..samples] else shuffled
    else cand
  }

  /** Exact evaluation on small candidate sets; a sample of min(samples, |cand|) candidates otherwise. */
  lemma EvaluationSetShape(cand: seq<nat>, shuffled: seq<nat>, threshold: int, samples: nat)
    requires multiset(shuffled) == multiset(cand)
    ensures |cand| <= threshold ==> EvaluationSet(cand, shuffled, threshold, samples) == cand
    ensures |cand| > threshold ==>
              |EvaluationSet(cand, shuffled, threshold, samples)| == (if |cand| < samples then |cand| else samples)
    ensures multiset(EvaluationSet(cand, shuffled, threshold, samples)) <= multiset(cand)
  {
    assert |multiset(shuffled)| == |shuffled| && |multiset(cand)| == |cand|;
    if |shuffled| > samples {
      assert shuffled == shuffled[..samples] + shuffled[samples..];
      assert multiset(shuffled) == multiset(shuffled[..samples]) + multiset(shuffled[samples..]);
    }
  }

  lemma EvaluationSetIndices(words: seq<string>, cand: seq<nat>, shuffled: seq<nat>, threshold: int, samples: nat)
    requires Indices(words, cand) && multiset(shuffled) == multiset(cand)
    ensures Indices(words, EvaluationSet(cand, shuffled, threshold, samples))
  {
    var e := EvaluationSet(cand, shuffled, threshold, samples);
    EvaluationSetShape(cand, shuffled, threshold, samples);
    forall k | 0 <= k < |e|
      ensures e[k] < |words|
    {
      assert e[k] in multiset(e);
      assert e[k] in multiset(cand);
      assert e[k] in cand;
    }
  }

  /** Members of evalSet that guess g would answer with code c. */
  function Occurrences(words: seq<string>, g: nat, evalSet: seq<nat>, c: int): (r: nat)
    requires Dictionary(words) && g < |words| && Indices(words, evalSet)
    ensures r <= |evalSet|
    ensures !(0 <= c < Codes) ==> r == 0
  {
    if evalSet == [] then 0
    else
      var last := evalSet[|evalSet| - 1];
      CodeRoundTrip(words[g], words[last]);
      Occurrences(words, g, evalSet[..|evalSet| - 1], c) + (if Code(words[g], words[last]) == c then 1 else 0)
  }

  /** The count of every feedback code that guess g induces over evalSet. */
  function Histogram(words: seq<string>, g: nat, evalSet: seq<nat>): (h: seq<nat>)
    requires Dictionary(words) && g < |words| && Indices(words, evalSet)
    ensures |h| == Codes && forall c :: 0 <= c < Codes ==> h[c] <= |evalSet|
  {
    seq(Codes, c requires 0 <= c < Codes => Occurrences(words, g, evalSet, c))
  }

  function Sum(h: seq<nat>): nat
  {
    if h == [] then 0 else Sum(h[..|h| - 1]) + h[|h| - 1]
  }

  lemma {:induction false} SumIncrement(h: seq<nat>, i: nat)
    requires i < |h|
    ensures Sum(h[i := h[i] + 1]) == Sum(h) + 1
  {
    var h' := h[i := h[i] + 1];
    if i < |h| - 1 {
      SumIncrement(h[..|h| - 1], i);
      assert h'[..|h| - 1] == h[..|h| - 1][i := h[i] + 1];
    } else {
      assert h'[..|h| - 1] == h[..|h| - 1];
    }
  }

  /** Adding one member to the evaluation set raises exactly the bucket of its code. */
  lemma HistogramSnoc(words: seq<string>, g: nat, evalSet: seq<nat>, x: nat)
    requires Dictionary(words) && g < |words| && Indices(words, evalSet) && x < |words|
    ensures Indices(words, evalSet + [x])
    ensures 0 <= Code(words[g], words[x]) < Codes
    ensures var c := Code(words[g], words[x]);
            Histogram(words, g, evalSet + [x]) == Histogram(words, g, evalSet)[c := Histogram(words, g, evalSet)[c] + 1]
  {
    CodeRoundTrip(words[g], words[x]);
    assert (evalSet + [x])[..|evalSet|] == evalSet;
  }

  /** For every guess, the histogram's counts add up to the size of the evaluation set. */
  lemma {:induction false} HistogramTotal(words: seq<string>, g: nat, evalSet: seq<nat>)
    requires Dictionary(words) && g < |words| && Indices(words, evalSet)
    ensures |Histogram(words, g, evalSet)| == Codes
    ensures Sum(Histogram(words, g, evalSet)) == |evalSet|
  {
    if evalSet == [] {
      ZeroSum(Histogram(words, g, evalSet));
    } else {
      var init := evalSet[..|evalSet| - 1];
      var last := evalSet[|evalSet| - 1];
      assert evalSet == init + [last];
      HistogramTotal(words, g, init);
      HistogramSnoc(words, g, init, last);
      var c := Code(words[g], words[last]);
      SumIncrement(Histogram(words, g, init), c);
    }
  }

  lemma {:induction false} ZeroSum(h: seq<nat>)
    requires forall i :: 0 <= i < |h| ==> h[i] == 0
    ensures Sum(h) == 0
  {
    if h != [] {
      ZeroSum(h[..|h| - 1]);
    }
  }

  /** The score of a histogram never goes below zero, as entropy does not. */
  ghost predicate NonNegative(score: seq<nat> -> real)
  {
    forall h :: score(h) >= 0.0
  }

  /** The score of every guess of guessPool over evalSet, in pool order. */
  function Scores(words: seq<string>, score: seq<nat> -> real, guessPool: seq<nat>, evalSet: seq<nat>): (s: seq<real>)
    requires Dictionary(words) && Indices(words, guessPool) && Indices(words, evalSet)
  {
    seq(|guessPool|, m requires 0 <= m < |guessPool| => score(Histogram(words, guessPool[m], evalSet)))
  }

  /** k holds a greatest score and every earlier score is strictly smaller. */
  predicate IsFirstBest(scores: seq<real>, k: int)
  {
    && 0 <= k < |scores|
    && (forall m :: 0 <= m < |scores| ==> scores[m] <= scores[k])
    && (forall m :: 0 <= m < k ==> scores[m] < scores[k])
  }

  /** The first-strict-maximum choice is unique: selection is deterministic. */
  lemma FirstBestUnique(scores: seq<real>, k: int, k': int)
    requires IsFirstBest(scores, k) && IsFirstBest(scores, k')
    ensures k == k'
  {
    assert scores[k] == scores[k'];
  }

  /** The guesses considered in a round: the whole pool when the candidates are few but not very few. */
  function GuessPool(cand: seq<nat>, pool: seq<nat>): seq<nat>
  {
    if NarrowLow <= |cand| < NarrowHigh then pool else cand
  }

  /** Every candidate can be guessed; in particular the guess pool of a non-empty candidate set is non-empty. */
  lemma GuessPoolCovers(cand: seq<nat>, pool: seq<nat>)
    requires forall x :: x in cand ==> x in pool
    ensures forall x :: x in cand ==> x in GuessPool(cand, pool)
    ensures cand != [] ==> GuessPool(cand, pool) != []
    ensures GuessPool(cand, pool) == pool <==> (NarrowLow <= |cand| < NarrowHigh || cand == pool)
  {
    if cand != [] {
      assert cand[0] in GuessPool(cand, pool);
    }
  }
}

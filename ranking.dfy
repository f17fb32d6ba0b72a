/**
 * The podium ranking of `apresentar_podio`: a bubble sort, descending by
 * score, over copies of the two parallel lists, swapping names and scores
 * together and only when a score is strictly smaller than the next one.
 */
module Ranking {

  /** Scores in non-increasing order. */
  predicate SortedDesc(s: seq<real>) {
    forall i, j :: 0 <= i < j < |s| ==> s[i] >= s[j]
  }

  /** `perm` maps the positions 0..n-1 one-to-one onto the positions 0..n-1. */
  predicate IsPermutation(perm: seq<nat>, n: nat) {
    && |perm| == n
    && (forall k :: 0 <= k < n ==> perm[k] < n)
    && (forall k, l :: 0 <= k < l < n ==> perm[k] != perm[l])
  }

  /** `r` holds at each position k the element of `s` at position perm[k]. */
  predicate Rearranged<T(==)>(r: seq<T>, s: seq<T>, perm: seq<nat>) {
    && |r| == |s|
    && IsPermutation(perm, |s|)
    && (forall k :: 0 <= k < |r| ==> r[k] == s[perm[k]])
  }

  /** Equal scores keep the relative order they had before the rearrangement. */
  predicate Stable(ranked: seq<real>, perm: seq<nat>)
    requires |perm| == |ranked|
  {
    forall k, l :: 0 <= k < l < |ranked| && ranked[k] == ranked[l] ==> perm[k] < perm[l]
  }

  /** The (name, score) entries that the two parallel lists describe. */
  function Pairs(names: seq<string>, scores: seq<real>): (r: seq<(string, real)>)
    requires |names| == |scores|
    ensures |r| == |names| && forall k :: 0 <= k < |r| ==> r[k] == (names[k], scores[k])
  {
    seq(|names|, k requires 0 <= k < |names| => (names[k], scores[k]))
  }

  /** The list with the elements at positions j and j + 1 exchanged. */
  function Swap<T>(s: seq<T>, j: nat): (r: seq<T>)
    requires j + 1 < |s|
    ensures |r| == |s| && r[j] == s[j + 1] && r[j + 1] == s[j]
    ensures forall k :: 0 <= k < |s| && k != j && k != j + 1 ==> r[k] == s[k]
  {
    s[j := s[j + 1]][j + 1 := s[j]]
  }

  /** Exchanging two adjacent elements keeps the multiset of elements. */
  lemma SwapKeepsMultiset<T>(s: seq<T>, j: nat)
    requires j + 1 < |s|
    ensures multiset(Swap(s, j)) == multiset(s)
  {
    assert s == s[..j] + [s[j], s[j + 1]] + s[j + 2..];
    assert Swap(s, j) == s[..j] + [s[j + 1], s[j]] + s[j + 2..];
  }

  /**
   * The working copies `rankedNames` and `rankedScores` are the original
   * entries rearranged by `perm`, pairs kept together, equal scores in their
   * original order.
   */
  predicate Tracks(rankedNames: seq<string>, rankedScores: seq<real>, perm: seq<nat>,
                   names: seq<string>, scores: seq<real>)
  {
    && |names| == |scores|
    && Rearranged(rankedNames, names, perm) && Rearranged(rankedScores, scores, perm)
    && Stable(rankedScores, perm)
    && multiset(Pairs(rankedNames, rankedScores)) == multiset(Pairs(names, scores))
  }

  /**
   * After the passes so far, positions `m` onwards hold the smallest scores
   * in their final order.
   */
  predicate SettledFrom(s: seq<real>, m: nat) {
    && m <= |s|
    && (forall k, l :: m <= k < l < |s| ==> s[k] >= s[l])
    && (forall k, l :: 0 <= k < m <= l < |s| ==> s[k] >= s[l])
  }

  /** Within the current pass, position j holds the smallest score of s[0..j]. */
  predicate SmallestSoFar(s: seq<real>, j: nat)
    requires j < |s|
  {
    forall k :: 0 <= k < j ==> s[k] >= s[j]
  }

  /** Exchanging two adjacent positions of a permutation gives a permutation. */
  lemma SwapPermutation(perm: seq<nat>, n: nat, j: nat)
    requires IsPermutation(perm, n) && j + 1 < n
    ensures IsPermutation(Swap(perm, j), n)
  {
    var pm := Swap(perm, j);
    forall k, l | 0 <= k < l < n ensures pm[k] != pm[l] {
      var k' := if k == j then j + 1 else if k == j + 1 then j else k;
      var l' := if l == j then j + 1 else if l == j + 1 then j else l;
      assert pm[k] == perm[k'] && pm[l] == perm[l'];
      if k' < l' { assert perm[k'] != perm[l']; } else { assert perm[l'] != perm[k']; }
    }
  }

  /** Exchanging two adjacent scores that differ keeps equal scores in order. */
  lemma SwapStable(ranked: seq<real>, perm: seq<nat>, j: nat)
    requires |perm| == |ranked| && Stable(ranked, perm)
    requires j + 1 < |ranked| && ranked[j] != ranked[j + 1]
    ensures Stable(Swap(ranked, j), Swap(perm, j))
  {
    var ps, pm := Swap(ranked, j), Swap(perm, j);
    forall k, l | 0 <= k < l < |ps| && ps[k] == ps[l] ensures pm[k] < pm[l] {
      var k' := if k == j then j + 1 else if k == j + 1 then j else k;
      var l' := if l == j then j + 1 else if l == j + 1 then j else l;
      assert ps[k] == ranked[k'] && ps[l] == ranked[l'];
      assert pm[k] == perm[k'] && pm[l] == perm[l'];
    }
  }

  /** A swap on a strict `<` keeps the rearrangement, its pairing and its stability. */
  lemma SwapTracks(rankedNames: seq<string>, rankedScores: seq<real>, perm: seq<nat>,
                   names: seq<string>, scores: seq<real>, j: nat)
    requires Tracks(rankedNames, rankedScores, perm, names, scores)
    requires j + 1 < |rankedScores| && rankedScores[j] < rankedScores[j + 1]
    ensures Tracks(Swap(rankedNames, j), Swap(rankedScores, j), Swap(perm, j), names, scores)
  {
    SwapPermutation(perm, |scores|, j);
    SwapStable(rankedScores, perm, j);
    var pairs := Pairs(rankedNames, rankedScores);
    assert Pairs(Swap(rankedNames, j), Swap(rankedScores, j)) == Swap(pairs, j);
    SwapKeepsMultiset(pairs, j);
  }

  /** The positions 0..n-1 in order: the permutation that moves nothing. */
  function Identity(n: nat): (r: seq<nat>)
    ensures IsPermutation(r, n) && forall k :: 0 <= k < n ==> r[k] == k
  {
    seq(n, k requires 0 <= k < n => k)
  }

  /** Before the first pass the copies are the original lists, unmoved. */
  lemma StartTracks(names: seq<string>, scores: seq<real>)
    requires |names| == |scores|
    ensures Tracks(names, scores, Identity(|scores|), names, scores)
  {
  }

  /** One comparison of the inner loop, with or without its swap. */
  lemma StepSettles(s: seq<real>, m: nat, j: nat)
    requires SettledFrom(s, m) && j + 1 < m && SmallestSoFar(s, j)
    ensures s[j] < s[j + 1] ==> SettledFrom(Swap(s, j), m) && SmallestSoFar(Swap(s, j), j + 1)
    ensures s[j] >= s[j + 1] ==> SmallestSoFar(s, j + 1)
  {
  }

  /** At the end of a pass, the smallest remaining score has joined the settled part. */
  lemma PassSettles(s: seq<real>, m: nat)
    requires SettledFrom(s, m) && 0 < m && SmallestSoFar(s, m - 1)
    ensures SettledFrom(s, m - 1)
  {
  }

  /**
   * One pass of the inner loop of `apresentar_podio` over positions
   * 0..m-1: adjacent entries are swapped when a score is strictly smaller
   * than the next one, which carries the smallest score of the unsettled
   * part to position m - 1.
   */
  method BubblePass(names: seq<string>, scores: seq<real>, ghost perm: seq<nat>, m: nat,
                    ghost originalNames: seq<string>, ghost originalScores: seq<real>)
    returns (names': seq<string>, scores': seq<real>, ghost perm': seq<nat>)
    requires 0 < m <= |scores| && SettledFrom(scores, m)
    requires Tracks(names, scores, perm, originalNames, originalScores)
    ensures |scores'| == |scores| && SettledFrom(scores', m - 1)
    ensures Tracks(names', scores', perm', originalNames, originalScores)
  {
    names', scores', perm' := names, scores, perm;
    for j := 0 to m - 1
      invariant |scores'| == |scores| && SettledFrom(scores', m)
      invariant SmallestSoFar(scores', j)
      invariant Tracks(names', scores', perm', originalNames, originalScores)
    {
      StepSettles(scores', m, j);
      if scores'[j] < scores'[j + 1] {
        SwapTracks(names', scores', perm', originalNames, originalScores, j);
        scores' := Swap(scores', j);
        names' := Swap(names', j);
        perm' := Swap(perm', j);
      }
    }
    PassSettles(scores', m);
  }

  /**
   * The bubble sort of `apresentar_podio`. The scores come out non-increasing;
   * every position k holds the entry that was at position perm[k], so names and
   * scores stay paired; entries with equal scores keep their original order.
   */
  method SortByScore(names: seq<string>, scores: seq<real>)
    returns (rankedNames: seq<string>, rankedScores: seq<real>, ghost perm: seq<nat>)
    requires |names| == |scores|
    ensures SortedDesc(rankedScores)
    ensures Rearranged(rankedNames, names, perm) && Rearranged(rankedScores, scores, perm)
    ensures Stable(rankedScores, perm)
    ensures multiset(Pairs(rankedNames, rankedScores)) == multiset(Pairs(names, scores))
  {
    rankedNames, rankedScores := names, scores;
    var n := |rankedScores|;
    perm := Identity(n);
    StartTracks(names, scores);
    for i := 0 to n
      invariant |rankedScores| == n
      invariant SettledFrom(rankedScores, n - i)
      invariant Tracks(rankedNames, rankedScores, perm, names, scores)
    {
      rankedNames, rankedScores, perm := BubblePass(rankedNames, rankedScores, perm, n - i, names, scores);
    }
    assert SettledFrom(rankedScores, 0);
  }
}

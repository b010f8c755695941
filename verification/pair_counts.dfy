/**
 * Pair statistics over a token-id sequence: how often an adjacent pair
 * occurs (overlapping occurrences counted, as `Counter(zip(ids, ids[1:]))`
 * does), where it first occurs, and `find_freq_pair`, the most frequent
 * pair with ties going to the pair that occurs first.
 */
module PairCounts {
  import opened Tokens

  /** The adjacent pair that starts at index `i`. */
  function PairAt(ids: seq<int>, i: nat): Pair
    requires i + 1 < |ids|
  {
    (ids[i], ids[i + 1])
  }

  /** Number of indices `i` with `PairAt(ids, i) == p`. */
  function Count(ids: seq<int>, p: Pair): (r: nat)
    ensures r <= if |ids| < 2 then 0 else |ids| - 1
  {
    if |ids| < 2 then 0
    else (if (ids[0], ids[1]) == p then 1 else 0) + Count(ids[1..], p)
  }

  /** Index of the first occurrence of `p`, or `|ids|` when `p` does not occur. */
  function FirstIndex(ids: seq<int>, p: Pair): (r: nat)
    ensures r <= |ids|
    ensures r < |ids| ==> r + 1 < |ids| && PairAt(ids, r) == p
    ensures forall j :: 0 <= j < r && j + 1 < |ids| ==> PairAt(ids, j) != p
  {
    if |ids| < 2 then |ids|
    else if (ids[0], ids[1]) == p then 0
    else
      assert forall j :: 1 <= j && j + 1 < |ids| ==> PairAt(ids, j) == PairAt(ids[1..], j - 1);
      1 + FirstIndex(ids[1..], p)
  }

  /** A pair is counted exactly when it has a first occurrence. */
  lemma {:induction false} CountPositiveIffOccurs(ids: seq<int>, p: Pair)
    ensures Count(ids, p) > 0 <==> FirstIndex(ids, p) < |ids|
  {
    if |ids| >= 2 && (ids[0], ids[1]) != p {
      CountPositiveIffOccurs(ids[1..], p);
    }
  }

  /** The pair at any index is counted at least once. */
  lemma OccurrenceIsCounted(ids: seq<int>, i: nat)
    requires i + 1 < |ids|
    ensures Count(ids, PairAt(ids, i)) > 0
    ensures FirstIndex(ids, PairAt(ids, i)) <= i
  {
    CountPositiveIffOccurs(ids, PairAt(ids, i));
  }

  /**
   * `p` is what `max(Counter(zip(ids, ids[1:])), key=counter.get)` returns:
   * a pair that occurs, whose count no pair exceeds, and that occurs no later
   * than any pair with the same count (the Counter iterates its keys in
   * first-occurrence order and `max` keeps the first maximal key).
   */
  ghost predicate IsMostFrequent(ids: seq<int>, p: Pair)
  {
    && Count(ids, p) > 0
    && (forall q :: Count(ids, q) <= Count(ids, p))
    && (forall q :: Count(ids, q) == Count(ids, p) ==> FirstIndex(ids, p) <= FirstIndex(ids, q))
  }

  /**
   * Index, among the first `n` pair positions, of the first position whose
   * pair has the highest count: the scan `max` performs.
   */
  function BestPos(ids: seq<int>, n: nat): (b: nat)
    requires 1 <= n < |ids|
    ensures b < n
    ensures forall j :: 0 <= j < n ==> Count(ids, PairAt(ids, j)) <= Count(ids, PairAt(ids, b))
    ensures forall j :: 0 <= j < b ==> Count(ids, PairAt(ids, j)) < Count(ids, PairAt(ids, b))
  {
    if n == 1 then 0
    else
      var b := BestPos(ids, n - 1);
      if Count(ids, PairAt(ids, n - 1)) > Count(ids, PairAt(ids, b)) then n - 1 else b
  }

  /** The pair found by the scan is the most frequent pair. */
  lemma BestPosIsMostFrequent(ids: seq<int>)
    requires |ids| >= 2
    ensures IsMostFrequent(ids, PairAt(ids, BestPos(ids, |ids| - 1)))
  {
    var b := BestPos(ids, |ids| - 1);
    var p := PairAt(ids, b);
    OccurrenceIsCounted(ids, b);
    forall q
      ensures Count(ids, q) <= Count(ids, p)
      ensures Count(ids, q) == Count(ids, p) ==> FirstIndex(ids, p) <= FirstIndex(ids, q)
    {
      CountPositiveIffOccurs(ids, q);
      if Count(ids, q) > 0 {
        var j := FirstIndex(ids, q);
        assert PairAt(ids, j) == q;
      }
    }
  }

  /** At most one pair is the most frequent one. */
  lemma MostFrequentIsUnique(ids: seq<int>, p: Pair, q: Pair)
    requires IsMostFrequent(ids, p) && IsMostFrequent(ids, q)
    ensures p == q
  {
    CountPositiveIffOccurs(ids, p);
    CountPositiveIffOccurs(ids, q);
    assert Count(ids, p) == Count(ids, q);
    assert FirstIndex(ids, p) == FirstIndex(ids, q);
  }

  /**
   * `find_freq_pair` of the solution files: None for fewer than two ids or
   * when no pair occurs more than once, otherwise the most frequent pair.
   */
  function FindFreqPair(ids: seq<int>): (r: Option<Pair>)
    ensures r.None? <==> |ids| < 2 || forall q :: Count(ids, q) <= 1
    ensures r.Some? ==> IsMostFrequent(ids, r.value) && Count(ids, r.value) >= 2
  {
    if |ids| < 2 then None
    else
      BestPosIsMostFrequent(ids);
      var p := PairAt(ids, BestPos(ids, |ids| - 1));
      if Count(ids, p) > 1 then
        assert !(forall q :: Count(ids, q) <= 1) by { assert Count(ids, p) > 1; }
        Some(p)
      else None
  }

  /**
   * `find_freq_pair` of the tutorial-4 stub: no "more than once" threshold,
   * so every sequence of two or more ids yields its most frequent pair. The
   * stub's `if not pairs` test can never fire: two ids make at least one pair.
   */
  function FindFreqPairAnyCount(ids: seq<int>): (r: Option<Pair>)
    ensures r.None? <==> |ids| < 2
    ensures r.Some? ==> IsMostFrequent(ids, r.value)
  {
    if |ids| < 2 then None
    else
      BestPosIsMostFrequent(ids);
      Some(PairAt(ids, BestPos(ids, |ids| - 1)))
  }

  /** The two stages agree exactly when the stub's pair occurs at least twice. */
  lemma StubAgreesAboveThreshold(ids: seq<int>)
    ensures FindFreqPair(ids) ==
      (match FindFreqPairAnyCount(ids)
       case Some(p) => if Count(ids, p) >= 2 then Some(p) else None
       case None => None)
  {
    var a := FindFreqPairAnyCount(ids);
    var f := FindFreqPair(ids);
    if a.Some? && f.Some? {
      MostFrequentIsUnique(ids, a.value, f.value);
    }
  }

  /** A repeated pair wins over pairs seen once (solution files). */
  lemma FindFreqPairRepeatedExample()
    ensures FindFreqPair([1, 2, 3, 1, 2]) == Some((1, 2))
  {
    var s := [1, 2, 3, 1, 2];
    assert s[1..] == [2, 3, 1, 2];
    assert s[1..][1..] == [3, 1, 2];
    assert s[1..][1..][1..] == [1, 2];
    assert s[1..][1..][1..][1..] == [2];
  }

  /** A later pair seen twice wins over earlier pairs seen once (solution files). */
  lemma FindFreqPairLaterExample()
    ensures FindFreqPair([1, 2, 3, 4, 3, 4]) == Some((3, 4))
  {
    var t := [1, 2, 3, 4, 3, 4];
    assert t[1..] == [2, 3, 4, 3, 4];
    assert t[1..][1..] == [3, 4, 3, 4];
    assert t[1..][1..][1..] == [4, 3, 4];
    assert t[1..][1..][1..][1..] == [3, 4];
    assert t[1..][1..][1..][1..][1..] == [4];
  }

  /** The first example for the tutorial-4 stub. */
  lemma StubRepeatedExample()
    ensures FindFreqPairAnyCount([1, 2, 3, 1, 2]) == Some((1, 2))
  {
    var s := [1, 2, 3, 1, 2];
    assert s[1..] == [2, 3, 1, 2];
    assert s[1..][1..] == [3, 1, 2];
    assert s[1..][1..][1..] == [1, 2];
    assert s[1..][1..][1..][1..] == [2];
  }

  /** The second example for the tutorial-4 stub. */
  lemma StubLaterExample()
    ensures FindFreqPairAnyCount([1, 2, 3, 4, 3, 4]) == Some((3, 4))
  {
    var t := [1, 2, 3, 4, 3, 4];
    assert t[1..] == [2, 3, 4, 3, 4];
    assert t[1..][1..] == [3, 4, 3, 4];
    assert t[1..][1..][1..] == [4, 3, 4];
    assert t[1..][1..][1..][1..] == [3, 4];
    assert t[1..][1..][1..][1..][1..] == [4];
  }

  /**
   * Short inputs give None in both stages; a single pair gives None in the
   * solution files (it occurs once) and that pair in the stub.
   */
  lemma FindFreqPairShortInputs()
    ensures FindFreqPair([]) == None && FindFreqPair([1]) == None
    ensures FindFreqPair([1, 2]) == None
    ensures FindFreqPairAnyCount([]) == None && FindFreqPairAnyCount([1]) == None
    ensures FindFreqPairAnyCount([1, 2]) == Some((1, 2))
  {
    var u := [1, 2];
    assert u[1..] == [2];
  }
}

/**
 * Rewriting a token-id sequence with merge rules. `replace_pair` (one rule)
 * and `apply_merges` (the whole merge table) make the same single greedy
 * left-to-right sweep: at each position, if the current id and the next one
 * form a rule's key, emit the rule's id and skip both, otherwise emit the
 * current id and move on by one. Ids emitted by the sweep are never looked
 * at again within the same sweep.
 */
module Merging {
  import opened Tokens
  import opened PairCounts

  /** One greedy left-to-right sweep of `ids` against the rules in `merges`. */
  function Sweep(ids: seq<int>, merges: map<Pair, int>): (r: seq<int>)
    ensures |r| <= |ids|
  {
    if |ids| < 2 then ids
    else if (ids[0], ids[1]) in merges then [merges[(ids[0], ids[1])]] + Sweep(ids[2..], merges)
    else [ids[0]] + Sweep(ids[1..], merges)
  }

  /**
   * `replace_pair`: pops ids off the front of a deque, emitting `newId` for
   * each occurrence of `pair` it meets and the popped id otherwise.
   */
  method ReplacePair(ids: seq<int>, pair: Pair, newId: int) returns (r: seq<int>)
    ensures r == Sweep(ids, map[pair := newId])
  {
    ghost var m := map[pair := newId];
    r := [];
    var dq := ids;
    while |dq| > 0
      invariant r + Sweep(dq, m) == Sweep(ids, m)
    {
      var left := dq[0];
      dq := dq[1..];
      if |dq| > 0 && (left, dq[0]) == pair {
        r := r + [newId];
        dq := dq[1..];
      } else {
        r := r + [left];
      }
    }
  }

  /**
   * `apply_merges`: the same deque sweep, testing each adjacent pair against
   * every key of the merge table; inputs of at most one id come back as they are.
   */
  method ApplyMerges(ids: seq<int>, merges: map<Pair, int>) returns (r: seq<int>)
    ensures r == Sweep(ids, merges)
  {
    var dq := ids;
    if |dq| <= 1 {
      return dq;
    }
    r := [];
    while |dq| >= 2
      invariant r + Sweep(dq, merges) == Sweep(ids, merges)
    {
      ghost var d0 := dq;
      ghost var r0 := r;
      var left := dq[0];
      var next := dq[1];
      dq := dq[1..];
      if (left, next) in merges {
        r := r + [merges[(left, next)]];
        dq := dq[1..];
        assert dq == d0[2..];
      } else {
        r := r + [left];
      }
      assert Sweep(d0, merges) == r[|r0|..] + Sweep(dq, merges);
      AppendAssoc(r0, r[|r0|..], Sweep(dq, merges));
      assert r == r0 + r[|r0|..];
    }
    r := r + dq;
  }

  /** Appending id sequences is associative (a proof step for the solver; it models nothing). */
  lemma AppendAssoc(a: seq<int>, b: seq<int>, c: seq<int>)
    ensures (a + b) + c == a + (b + c)
  {
  }

  /** The first id of a sweep is the first input id or the id of some rule. */
  lemma SweepHead(ids: seq<int>, merges: map<Pair, int>)
    requires |ids| >= 1
    ensures |Sweep(ids, merges)| >= 1
    ensures Sweep(ids, merges)[0] == ids[0] || Sweep(ids, merges)[0] in merges.Values
  {
  }

  /** Every output id is an input id or the id of a rule. */
  lemma {:induction false} SweepElements(ids: seq<int>, merges: map<Pair, int>)
    ensures forall i :: 0 <= i < |Sweep(ids, merges)| ==>
      Sweep(ids, merges)[i] in ids || Sweep(ids, merges)[i] in merges.Values
  {
    if |ids| >= 2 {
      var k := if (ids[0], ids[1]) in merges then 2 else 1;
      SweepElements(ids[k..], merges);
    }
  }

  /** A sweep changes nothing when no adjacent pair is a key. */
  lemma {:induction false} SweepWithoutKeys(ids: seq<int>, merges: map<Pair, int>)
    requires forall i :: 0 <= i && i + 1 < |ids| ==> PairAt(ids, i) !in merges
    ensures Sweep(ids, merges) == ids
  {
    if |ids| >= 2 {
      assert PairAt(ids, 0) !in merges;
      assert forall i :: 0 <= i && i + 1 < |ids| - 1 ==> PairAt(ids[1..], i) == PairAt(ids, i + 1);
      SweepWithoutKeys(ids[1..], merges);
    }
  }

  /** A sweep over a sequence holding a key at index `i` makes it strictly shorter. */
  lemma {:induction false} SweepShortensAtKey(ids: seq<int>, merges: map<Pair, int>, i: nat)
    requires i + 1 < |ids| && PairAt(ids, i) in merges
    ensures |Sweep(ids, merges)| < |ids|
  {
    if (ids[0], ids[1]) !in merges {
      assert PairAt(ids[1..], i - 1) == PairAt(ids, i);
      SweepShortensAtKey(ids[1..], merges, i - 1);
    }
  }

  /** `apply_merges` returns its input exactly when no adjacent pair of it is a key. */
  lemma SweepIsIdentityIff(ids: seq<int>, merges: map<Pair, int>)
    ensures Sweep(ids, merges) == ids <==>
      forall i :: 0 <= i && i + 1 < |ids| ==> PairAt(ids, i) !in merges
  {
    if forall i :: 0 <= i && i + 1 < |ids| ==> PairAt(ids, i) !in merges {
      SweepWithoutKeys(ids, merges);
    } else {
      var i :| 0 <= i && i + 1 < |ids| && PairAt(ids, i) in merges;
      SweepShortensAtKey(ids, merges, i);
    }
  }

  /**
   * The merge rules spell their ids: every key and id of a rule has a
   * vocabulary entry, and the rule's id spells the two key ids joined.
   */
  ghost predicate Spells(vocab: map<int, string>, merges: map<Pair, int>)
  {
    forall p :: p in merges ==>
      && p.0 in vocab && p.1 in vocab && merges[p] in vocab
      && vocab[merges[p]] == vocab[p.0] + vocab[p.1]
  }

  /** A sweep with rules that spell their ids leaves the spelled text unchanged. */
  lemma {:induction false} SweepPreservesJoin(vocab: map<int, string>, merges: map<Pair, int>, ids: seq<int>)
    requires Spells(vocab, merges) && Known(vocab, ids)
    ensures Known(vocab, Sweep(ids, merges))
    ensures Join(vocab, Sweep(ids, merges)) == Join(vocab, ids)
  {
    if |ids| >= 2 {
      var r := Sweep(ids, merges);
      if (ids[0], ids[1]) in merges {
        var rest := ids[2..];
        assert ids[1..][1..] == rest;
        SweepPreservesJoin(vocab, merges, rest);
        assert r[1..] == Sweep(rest, merges);
        calc {
          Join(vocab, r);
          vocab[merges[(ids[0], ids[1])]] + Join(vocab, Sweep(rest, merges));
          vocab[ids[0]] + vocab[ids[1]] + Join(vocab, rest);
          vocab[ids[0]] + (vocab[ids[1]] + Join(vocab, ids[1..][1..]));
          Join(vocab, ids);
        }
      } else {
        SweepPreservesJoin(vocab, merges, ids[1..]);
        assert r[1..] == Sweep(ids[1..], merges);
      }
    }
  }

  /**
   * `replace_pair` leaves no occurrence of the pair behind when the new id is
   * not itself part of the pair.
   */
  lemma {:induction false} ReplaceRemovesPair(ids: seq<int>, pair: Pair, newId: int)
    requires newId != pair.0 && newId != pair.1
    ensures Count(Sweep(ids, map[pair := newId]), pair) == 0
  {
    var m := map[pair := newId];
    if |ids| >= 2 {
      var k := if (ids[0], ids[1]) == pair then 2 else 1;
      var rest := Sweep(ids[k..], m);
      ReplaceRemovesPair(ids[k..], pair, newId);
      if |rest| >= 1 {
        SweepHead(ids[k..], m);
      }
      assert Sweep(ids, m)[1..] == rest;
    }
  }

  /** A pair that does not contain the new id occurs no more often after `replace_pair`. */
  lemma {:induction false} ReplaceCountsNoMore(ids: seq<int>, pair: Pair, newId: int, q: Pair)
    requires newId != q.0 && newId != q.1
    ensures Count(Sweep(ids, map[pair := newId]), q) <= Count(ids, q)
  {
    var m := map[pair := newId];
    if |ids| >= 2 {
      var k := if (ids[0], ids[1]) == pair then 2 else 1;
      var rest := Sweep(ids[k..], m);
      ReplaceCountsNoMore(ids[k..], pair, newId, q);
      if |rest| >= 1 {
        SweepHead(ids[k..], m);
      }
      assert Sweep(ids, m)[1..] == rest;
      if k == 2 {
        assert ids[1..][1..] == ids[2..];
        assert Count(ids[2..], q) <= Count(ids[1..], q);
      }
    }
  }

  /** Spelling every `newId` back out as the pair gives back the input. */
  function Expand(ids: seq<int>, pair: Pair, newId: int): seq<int>
  {
    if ids == [] then []
    else (if ids[0] == newId then [pair.0, pair.1] else [ids[0]]) + Expand(ids[1..], pair, newId)
  }

  /**
   * `replace_pair` round trip: when `newId` does not occur in the input, the
   * input is the output with each `newId` expanded back into the pair.
   */
  lemma {:induction false} ReplaceRoundTrip(ids: seq<int>, pair: Pair, newId: int)
    requires newId !in ids
    ensures Expand(Sweep(ids, map[pair := newId]), pair, newId) == ids
  {
    var m := map[pair := newId];
    var r := Sweep(ids, m);
    if |ids| == 1 {
      assert Expand(ids, pair, newId) == [ids[0]] + Expand([], pair, newId);
    } else if |ids| >= 2 {
      var k := if (ids[0], ids[1]) == pair then 2 else 1;
      var rest := ids[k..];
      assert newId !in rest by {
        assert forall x :: x in rest ==> x in ids;
      }
      ReplaceRoundTrip(rest, pair, newId);
      assert r == [r[0]] + Sweep(rest, m);
      assert Expand(r, pair, newId) == (if r[0] == newId then [pair.0, pair.1] else [r[0]]) + ids[k..];
      assert ids == ids[..k] + ids[k..];
    }
  }

  /**
   * Each rewrite of `replace_pair` shortens the sequence by exactly one: when
   * `newId` does not occur in the input, the input is as long as the output
   * plus the number of `newId`s in it.
   */
  lemma {:induction false} ReplaceLength(ids: seq<int>, pair: Pair, newId: int)
    requires newId !in ids
    ensures |ids| == |Sweep(ids, map[pair := newId])| + multiset(Sweep(ids, map[pair := newId]))[newId]
  {
    var m := map[pair := newId];
    var r := Sweep(ids, m);
    if |ids| == 1 {
      assert multiset(ids)[newId] == 0;
    } else if |ids| >= 2 {
      var k := if (ids[0], ids[1]) == pair then 2 else 1;
      var rest := ids[k..];
      assert newId !in rest by {
        assert forall x :: x in rest ==> x in ids;
      }
      ReplaceLength(rest, pair, newId);
      assert r == [r[0]] + Sweep(rest, m);
      assert multiset(r) == multiset([r[0]]) + multiset(Sweep(rest, m));
    }
  }

  /** The examples the tests pin down for `replace_pair` and `apply_merges`. */
  lemma SweepExamples()
    ensures Sweep([1, 2, 3, 1, 2], map[(1, 2) := 4]) == [4, 3, 4]
    ensures Sweep([1, 2, 1, 2], map[(1, 2) := 3]) == [3, 3]
    ensures Sweep([1, 3, 2, 4], map[(1, 2) := 5]) == [1, 3, 2, 4]
    ensures Sweep([], map[(1, 2) := 5]) == []
  {
    var s := [1, 2, 3, 1, 2];
    assert s[2..] == [3, 1, 2] && s[2..][1..] == [1, 2] && s[2..][1..][2..] == [];
    var t := [1, 2, 1, 2];
    assert t[2..] == [1, 2] && t[2..][2..] == [];
    var u := [1, 3, 2, 4];
    assert u[1..] == [3, 2, 4] && u[1..][1..] == [2, 4] && u[1..][1..][1..] == [4];
  }

  /**
   * `apply_merges` is one sweep, not a fixed point: with the rules
   * (1,2) -> 4 and (4,3) -> 5, the sweep of [1,2,3] is [4,3], which a second
   * sweep would still reduce to [5].
   */
  lemma SweepIsNotAFixedPoint()
    ensures var m := map[(1, 2) := 4, (4, 3) := 5];
      Sweep([1, 2, 3], m) == [4, 3] && Sweep(Sweep([1, 2, 3], m), m) == [5]
  {
    var m := map[(1, 2) := 4, (4, 3) := 5];
    var s := [1, 2, 3];
    assert s[2..] == [3];
    var t := [4, 3];
    assert t[2..] == [];
  }
}

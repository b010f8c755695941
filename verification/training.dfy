/**
 * The merge loop of `train`, shared by the character-level and the
 * byte-level stages: while the vocabulary is smaller than the requested
 * size and some adjacent pair occurs more than once, give the most frequent
 * pair the fresh id `max(vocab) + 1`, spell that id as the concatenation of
 * the pair's strings, record the rule, and rewrite the working ids with it.
 */
module Training {
  import opened Tokens
  import opened PairCounts
  import opened Merging

  /** The tokenizer's three maps: `vocab`, `inverse_vocab` and `bpe_merges`. */
  datatype Tables = Tables(vocab: map<int, string>, inverse: map<string, int>, merges: map<Pair, int>)

  /** Every allowed special has an id. */
  predicate SpecialsKnown(t: Tables, allowed: seq<string>)
  {
    forall s :: s in allowed ==> s in t.inverse
  }

  /** A finite non-empty set of integers has a largest element. */
  lemma {:induction false} LargestOf(s: set<int>) returns (m: int)
    requires s != {}
    ensures m in s && forall k :: k in s ==> k <= m
    decreases |s|
  {
    assert exists x :: x in s by {
      if forall x :: x !in s {
        assert false;
      }
    }
    var x :| x in s;
    var rest := s - {x};
    if rest == {} {
      assert s == {x};
      m := x;
    } else {
      var y := LargestOf(rest);
      m := if x > y then x else y;
      assert forall k :: k in s ==> k == x || k in rest;
    }
  }

  /** The largest element exists, as a fact usable inside expressions. */
  lemma LargestExists(s: set<int>)
    requires s != {}
    ensures exists m :: m in s && forall k :: k in s ==> k <= m
  {
    var m := LargestOf(s);
  }

  /** `max(vocab)`: the largest id of a non-empty vocabulary. */
  function MaxKey(vocab: map<int, string>): (m: int)
    requires vocab != map[]
    ensures m in vocab && forall k :: k in vocab ==> k <= m
  {
    LargestExists(vocab.Keys);
    var m :| m in vocab && forall k :: k in vocab ==> k <= m; m
  }

  /** Every entry of `a` is in `b`, with the same string. */
  predicate VocabExtends(a: map<int, string>, b: map<int, string>)
  {
    forall k :: k in a ==> k in b && b[k] == a[k]
  }

  /** Every rule of `a` is in `b`, with the same id. */
  predicate MergesExtend(a: map<Pair, int>, b: map<Pair, int>)
  {
    forall p :: p in a ==> p in b && b[p] == a[p]
  }

  /** The ids of a vocabulary are exactly 0 .. |vocab| - 1. */
  ghost predicate Contiguous(vocab: map<int, string>)
  {
    forall k :: k in vocab <==> 0 <= k < |vocab|
  }

  /**
   * The maps agree with one another: every string of `inverse_vocab` names
   * an id that spells it, every vocabulary string has an id, and every merge
   * rule's id spells its pair.
   */
  ghost predicate Coherent(t: Tables)
  {
    Inverts(t.vocab, t.inverse) && Spells(t.vocab, t.merges)
  }

  /**
   * `inverse_vocab` inverts `vocab` as far as it can: every string names an
   * id that spells it, and every vocabulary string has an id. Two ids that
   * spell the same string make it no bijection; then the string names the
   * id written last.
   */
  ghost predicate Inverts(vocab: map<int, string>, inverse: map<string, int>)
  {
    && (forall s :: s in inverse ==> inverse[s] in vocab && vocab[inverse[s]] == s)
    && (forall k :: k in vocab ==> vocab[k] in inverse)
  }

  /** Every character of `s`, as a one-character string, has an id. */
  predicate AllCharsKnown(inverse: map<string, int>, s: string)
  {
    forall i :: 0 <= i < |s| ==> [s[i]] in inverse
  }

  /** `[inverse_vocab[char] for char in s]`. */
  function CharIds(inverse: map<string, int>, s: string): (ids: seq<int>)
    requires AllCharsKnown(inverse, s)
    ensures |ids| == |s|
  {
    seq(|s|, i requires 0 <= i < |s| => inverse[[s[i]]])
  }

  /**
   * `[inverse_vocab[char] for char in s]` as a loop that stops with
   * `KeyError` at the first character without an id.
   */
  method LookupChars(inverse: map<string, int>, s: string) returns (r: Result<seq<int>>)
    ensures r.Ok? <==> AllCharsKnown(inverse, s)
    ensures r.Ok? ==> r.value == CharIds(inverse, s)
    ensures r.Err? ==> r.error == UnknownCharacter
  {
    var ids := [];
    for i := 0 to |s|
      invariant |ids| == i
      invariant forall j :: 0 <= j < i ==> [s[j]] in inverse && ids[j] == inverse[[s[j]]]
    {
      if [s[i]] !in inverse {
        return Err(UnknownCharacter);
      }
      ids := ids + [inverse[[s[i]]]];
    }
    return Ok(ids);
  }

  /** The character ids of a string spell the string back. */
  lemma {:induction false} CharIdsSpell(vocab: map<int, string>, inverse: map<string, int>, s: string)
    requires Inverts(vocab, inverse) && AllCharsKnown(inverse, s)
    ensures Known(vocab, CharIds(inverse, s))
    ensures Join(vocab, CharIds(inverse, s)) == s
  {
    var ids := CharIds(inverse, s);
    assert Known(vocab, ids);
    if s != [] {
      CharIdsSpell(vocab, inverse, s[1..]);
      assert ids[1..] == CharIds(inverse, s[1..]);
      assert s == [s[0]] + s[1..];
    }
  }

  /** On contiguous ids the largest id is the size minus one. */
  lemma ContiguousMax(vocab: map<int, string>)
    requires Contiguous(vocab) && vocab != map[]
    ensures MaxKey(vocab) == |vocab| - 1
  {
    assert |vocab| - 1 in vocab;
  }

  /**
   * One iteration of the merge loop for the pair `p`: the fresh id
   * `max(vocab) + 1` becomes the rule's id, and it spells the two strings of
   * the pair joined.
   */
  function Learn(t: Tables, p: Pair): (r: Tables)
    requires t.vocab != map[] && p.0 in t.vocab && p.1 in t.vocab
    ensures MaxKey(t.vocab) + 1 !in t.vocab
    ensures r.vocab.Keys == t.vocab.Keys + {MaxKey(t.vocab) + 1}
    ensures |r.vocab| == |t.vocab| + 1
    ensures VocabExtends(t.vocab, r.vocab)
    ensures t.merges.Keys + {p} == r.merges.Keys && r.merges[p] == MaxKey(t.vocab) + 1
    ensures r.vocab[r.merges[p]] == t.vocab[p.0] + t.vocab[p.1]
  {
    var id := MaxKey(t.vocab) + 1;
    var s := t.vocab[p.0] + t.vocab[p.1];
    Tables(t.vocab[id := s], t.inverse[s := id], t.merges[p := id])
  }

  /** Both ids of the pair `find_freq_pair` returns occur in the input. */
  lemma FoundPairIsKnown(vocab: map<int, string>, ids: seq<int>)
    requires Known(vocab, ids) && FindFreqPair(ids).Some?
    ensures FindFreqPair(ids).value.0 in vocab && FindFreqPair(ids).value.1 in vocab
  {
    var p := FindFreqPair(ids).value;
    CountPositiveIffOccurs(ids, p);
    var j := FirstIndex(ids, p);
    assert PairAt(ids, j) == p;
  }

  /** Ids known to a vocabulary stay known, and spell the same, in an extension of it. */
  lemma {:induction false} JoinUnderExtension(a: map<int, string>, b: map<int, string>, ids: seq<int>)
    requires VocabExtends(a, b) && Known(a, ids)
    ensures Known(b, ids) && Join(b, ids) == Join(a, ids)
  {
    if ids != [] {
      JoinUnderExtension(a, b, ids[1..]);
      assert forall i :: 1 <= i < |ids| ==> ids[i] == ids[1..][i - 1];
      assert Known(b, ids);
    }
  }

  /**
   * The `while len(vocab) < vocab_size` loop of `train`, from the tables
   * and working ids it starts with to those it stops with. The loop stops
   * at the requested size or when no pair occurs twice; the tables only
   * grow, and no more than up to the requested size.
   */
  function MergeLoop(t: Tables, ids: seq<int>, size: int): (r: (Tables, seq<int>))
    requires Known(t.vocab, ids)
    ensures Known(r.0.vocab, r.1)
    ensures |r.0.vocab| >= size || FindFreqPair(r.1) == None
    ensures VocabExtends(t.vocab, r.0.vocab) && t.merges.Keys <= r.0.merges.Keys
    ensures |t.vocab| <= |r.0.vocab|
    ensures |t.vocab| <= size ==> |r.0.vocab| <= size
    decreases size - |t.vocab|
  {
    if |t.vocab| >= size then (t, ids)
    else match FindFreqPair(ids)
      case None => (t, ids)
      case Some(p) =>
        FoundPairIsKnown(t.vocab, ids);
        var id := MaxKey(t.vocab) + 1;
        var next := Learn(t, p);
        SweepElements(ids, map[p := id]);
        JoinUnderExtension(t.vocab, next.vocab, ids);
        MergeLoop(next, Sweep(ids, map[p := id]), size)
  }

  /**
   * One iteration of the loop: when it goes on, the pair it learns has
   * known ids, the rewritten ids are known to the grown vocabulary, and the
   * rest of the loop runs from there.
   */
  lemma MergeLoopStep(t: Tables, ids: seq<int>, size: int, p: Pair, id: int, next: Tables, ids': seq<int>)
    requires Known(t.vocab, ids) && |t.vocab| < size && FindFreqPair(ids) == Some(p)
    requires t.vocab != map[] && p.0 in t.vocab && p.1 in t.vocab && id == MaxKey(t.vocab) + 1
    requires next == Learn(t, p) && ids' == Sweep(ids, map[p := id])
    ensures Known(next.vocab, ids')
    ensures MergeLoop(t, ids, size) == MergeLoop(next, ids', size)
  {
    SweepElements(ids, map[p := id]);
  }

  /** A learned rule keeps the maps coherent. */
  lemma LearnKeepsCoherent(t: Tables, p: Pair)
    requires Coherent(t) && t.vocab != map[] && p.0 in t.vocab && p.1 in t.vocab
    ensures Coherent(Learn(t, p))
  {
    var r := Learn(t, p);
    var s := t.vocab[p.0] + t.vocab[p.1];
    forall u | u in r.inverse
      ensures r.inverse[u] in r.vocab && r.vocab[r.inverse[u]] == u
    {
      if u != s {
        assert r.inverse[u] == t.inverse[u];
      }
    }
  }

  /** The merge loop keeps the maps coherent. */
  lemma {:induction false} MergeLoopKeepsCoherent(t: Tables, ids: seq<int>, size: int)
    requires Coherent(t) && Known(t.vocab, ids)
    ensures Coherent(MergeLoop(t, ids, size).0)
    decreases size - |t.vocab|
  {
    if |t.vocab| < size && FindFreqPair(ids).Some? {
      var p := FindFreqPair(ids).value;
      FoundPairIsKnown(t.vocab, ids);
      var next := Learn(t, p);
      var ids' := Sweep(ids, map[p := MaxKey(t.vocab) + 1]);
      MergeLoopStep(t, ids, size, p, MaxKey(t.vocab) + 1, next, ids');
      LearnKeepsCoherent(t, p);
      MergeLoopKeepsCoherent(next, ids', size);
    }
  }

  /** A learned rule keeps the ids contiguous: the fresh id is the size. */
  lemma LearnKeepsContiguous(t: Tables, p: Pair)
    requires Contiguous(t.vocab) && t.vocab != map[] && p.0 in t.vocab && p.1 in t.vocab
    ensures Contiguous(Learn(t, p).vocab)
    ensures Learn(t, p).merges[p] == |t.vocab|
  {
    ContiguousMax(t.vocab);
  }

  /** The merge loop keeps the ids contiguous. */
  lemma {:induction false} MergeLoopKeepsContiguous(t: Tables, ids: seq<int>, size: int)
    requires Contiguous(t.vocab) && Known(t.vocab, ids)
    ensures Contiguous(MergeLoop(t, ids, size).0.vocab)
    decreases size - |t.vocab|
  {
    if |t.vocab| < size && FindFreqPair(ids).Some? {
      var p := FindFreqPair(ids).value;
      FoundPairIsKnown(t.vocab, ids);
      var next := Learn(t, p);
      var ids' := Sweep(ids, map[p := MaxKey(t.vocab) + 1]);
      MergeLoopStep(t, ids, size, p, MaxKey(t.vocab) + 1, next, ids');
      LearnKeepsContiguous(t, p);
      MergeLoopKeepsContiguous(next, ids', size);
    }
  }

  /** A learned rule keeps every rule spelling its id, and the new rule spells its own. */
  lemma LearnKeepsSpells(t: Tables, p: Pair)
    requires Spells(t.vocab, t.merges) && t.vocab != map[] && p.0 in t.vocab && p.1 in t.vocab
    ensures Spells(Learn(t, p).vocab, Learn(t, p).merges)
    ensures Spells(Learn(t, p).vocab, map[p := MaxKey(t.vocab) + 1])
  {
  }

  /**
   * The working ids spell the training text throughout: the loop ends with
   * ids that join, through the final vocabulary, to what the initial ids
   * joined to.
   */
  lemma {:induction false} MergeLoopSpellsText(t: Tables, ids: seq<int>, size: int)
    requires Spells(t.vocab, t.merges) && Known(t.vocab, ids)
    ensures Join(MergeLoop(t, ids, size).0.vocab, MergeLoop(t, ids, size).1) == Join(t.vocab, ids)
    decreases size - |t.vocab|
  {
    if |t.vocab| < size && FindFreqPair(ids).Some? {
      var p := FindFreqPair(ids).value;
      FoundPairIsKnown(t.vocab, ids);
      var id := MaxKey(t.vocab) + 1;
      var next := Learn(t, p);
      MergeLoopStep(t, ids, size, p, id, next, Sweep(ids, map[p := id]));
      LearnKeepsSpells(t, p);
      JoinUnderExtension(t.vocab, next.vocab, ids);
      SweepPreservesJoin(next.vocab, map[p := id], ids);
      MergeLoopSpellsText(next, Sweep(ids, map[p := id]), size);
    }
  }

  /** No pair that is already a rule occurs in the working ids. */
  ghost predicate Retired(merges: map<Pair, int>, ids: seq<int>)
  {
    forall p :: p in merges ==> Count(ids, p) == 0
  }

  /**
   * Started with rules none of whose pairs occur in the ids (on a fresh
   * tokenizer there are none), every iteration adds exactly one vocabulary
   * entry and one new rule, and no rule is overwritten.
   */
  lemma {:induction false} MergeLoopCountsMerges(t: Tables, ids: seq<int>, size: int)
    requires Spells(t.vocab, t.merges) && Known(t.vocab, ids) && Retired(t.merges, ids)
    ensures |MergeLoop(t, ids, size).0.merges| - |t.merges| == |MergeLoop(t, ids, size).0.vocab| - |t.vocab|
    ensures MergesExtend(t.merges, MergeLoop(t, ids, size).0.merges)
    ensures Retired(MergeLoop(t, ids, size).0.merges, MergeLoop(t, ids, size).1)
    decreases size - |t.vocab|
  {
    if |t.vocab| < size && FindFreqPair(ids).Some? {
      var p := FindFreqPair(ids).value;
      var id := MaxKey(t.vocab) + 1;
      var next := Learn(t, p);
      var ids' := Sweep(ids, map[p := id]);
      FoundPairIsKnown(t.vocab, ids);
      MergeLoopStep(t, ids, size, p, id, next, ids');
      LearnRetires(t, ids, p);
      LearnKeepsSpells(t, p);
      MergeLoopCountsMerges(next, ids', size);
    }
  }

  /**
   * A learned rule is new, adds one rule and overwrites none, and after the
   * rewrite neither it nor any older rule's pair occurs in the ids.
   */
  lemma LearnRetires(t: Tables, ids: seq<int>, p: Pair)
    requires Spells(t.vocab, t.merges) && Known(t.vocab, ids) && Retired(t.merges, ids)
    requires FindFreqPair(ids) == Some(p) && t.vocab != map[] && p.0 in t.vocab && p.1 in t.vocab
    ensures p !in t.merges && |Learn(t, p).merges| == |t.merges| + 1
    ensures MergesExtend(t.merges, Learn(t, p).merges)
    ensures Retired(Learn(t, p).merges, Sweep(ids, map[p := MaxKey(t.vocab) + 1]))
  {
    var id := MaxKey(t.vocab) + 1;
    var ids' := Sweep(ids, map[p := id]);
    var next := Learn(t, p);
    assert p !in t.merges;
    assert next.merges == t.merges[p := id];
    forall q | q in next.merges
      ensures Count(ids', q) == 0
    {
      if q == p {
        ReplaceRemovesPair(ids, p, id);
      } else {
        ReplaceCountsNoMore(ids, p, id, q);
      }
    }
  }

  /** A sequence whose ids are all different has no pair occurring twice. */
  lemma {:induction false} DistinctIdsPairOnce(ids: seq<int>, q: Pair)
    requires forall i, j :: 0 <= i < j < |ids| ==> ids[i] != ids[j]
    ensures Count(ids, q) <= 1
  {
    if |ids| >= 2 {
      DistinctIdsPairOnce(ids[1..], q);
      if (ids[0], ids[1]) == q && Count(ids[1..], q) > 0 {
        CountPositiveIffOccurs(ids[1..], q);
        var j := FirstIndex(ids[1..], q);
        assert false;
      }
    }
  }

  /** With all ids different the loop learns nothing: the tables come back unchanged. */
  lemma MergeLoopOnDistinctIds(t: Tables, ids: seq<int>, size: int)
    requires Known(t.vocab, ids)
    requires forall i, j :: 0 <= i < j < |ids| ==> ids[i] != ids[j]
    ensures MergeLoop(t, ids, size) == (t, ids)
  {
    forall q
      ensures Count(ids, q) <= 1
    {
      DistinctIdsPairOnce(ids, q);
    }
  }

  /**
   * From coherent tables with contiguous ids and no rules, the loop ends
   * with coherent tables, contiguous ids, every old entry kept, every old
   * string still spelled by the id it names, exactly one rule per new
   * entry, and no more entries than requested unless there already were.
   */
  lemma MergeLoopFromFresh(t: Tables, ids: seq<int>, size: int)
    requires Coherent(t) && Contiguous(t.vocab) && Known(t.vocab, ids) && t.merges == map[]
    ensures var r := MergeLoop(t, ids, size).0;
      && Coherent(r) && Contiguous(r.vocab) && VocabExtends(t.vocab, r.vocab)
      && (forall s :: s in t.inverse ==> s in r.inverse && r.vocab[r.inverse[s]] == s)
      && |r.vocab| == |t.vocab| + |r.merges|
      && (|t.vocab| <= size ==> |r.vocab| <= size)
  {
    var r := MergeLoop(t, ids, size).0;
    MergeLoopKeepsCoherent(t, ids, size);
    MergeLoopKeepsContiguous(t, ids, size);
    MergeLoopCountsMerges(t, ids, size);
    forall s | s in t.inverse
      ensures s in r.inverse
    {
      assert t.inverse[s] in r.vocab;
    }
  }
}

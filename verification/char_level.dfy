/**
 * The character-level stage of `BPETokenizer` (the `train` of the second
 * tutorial and the `train`, `encode` and `decode` of the third). Training
 * gives the sorted distinct characters of the text the ids 0 .. k - 1,
 * learns merges, and then appends every allowed special at `max(vocab) + 1`
 * with no presence check. Encoding splits the text on the one allowed
 * special with `str.split`, checks that every ordinary character has an id,
 * and encodes the pieces in order. Decoding is a plain join.
 */
module CharLevel {
  import opened Tokens
  import opened PairCounts
  import opened Merging
  import opened Text
  import opened Training

  // ---------------------------------------------------------------------
  // The initial vocabulary
  // ---------------------------------------------------------------------

  /** Strictly increasing: sorted, with no character twice. */
  predicate Increasing(u: seq<char>)
  {
    forall i, j :: 0 <= i < j < |u| ==> u[i] < u[j]
  }

  /** `c` put into its place in `u`, unless it is there already. */
  function Insert(u: seq<char>, c: char): (r: seq<char>)
    requires Increasing(u)
    ensures Increasing(r)
    ensures forall x :: x in r <==> x in u || x == c
  {
    if u == [] then [c]
    else if c < u[0] then [c] + u
    else if c == u[0] then u
    else
      var rest := Insert(u[1..], c);
      assert forall x :: x in rest ==> u[0] < x;
      [u[0]] + rest
  }

  /** `sorted(list(set(text)))`: the distinct characters of `s` in code-point order. */
  function SortedChars(s: string): (u: seq<char>)
    ensures Increasing(u)
    ensures forall c :: c in u <==> c in s
  {
    if s == [] then []
    else
      var init := s[..|s| - 1];
      assert s == init + [s[|s| - 1]];
      Insert(SortedChars(init), s[|s| - 1])
  }

  /** `{i: ch for i, ch in enumerate(unique_char)}` with `unique_char` one-character strings. */
  function CharVocab(u: seq<char>): map<int, string>
  {
    map i | 0 <= i < |u| :: [u[i]]
  }

  /** `{ch: i for i, ch in vocab.items()}`. */
  function CharInverse(u: seq<char>): map<string, int>
    requires Increasing(u)
  {
    map i | 0 <= i < |u| :: [u[i]] := i
  }

  /** The tables `train` starts its merge loop from; the old merges are kept. */
  function CharSeed(text: string, merges: map<Pair, int>): (r: Tables)
    ensures CharsFirst(r.vocab, SortedChars(text)) && r.merges == merges
    ensures forall i :: i in r.vocab <==> 0 <= i < |SortedChars(text)|
  {
    var u := SortedChars(text);
    Tables(CharVocab(u), CharInverse(u), merges)
  }

  /** The ids 0 .. |u| - 1 spell the characters of `u`, in order. */
  predicate CharsFirst(vocab: map<int, string>, u: seq<char>)
  {
    forall i :: 0 <= i < |u| ==> i in vocab && vocab[i] == [u[i]]
  }

  /** The ids `from`, `from + 1`, ... spell the strings of `strs`, in order. */
  predicate SpecialsAt(vocab: map<int, string>, from: int, strs: seq<string>)
  {
    forall id :: from <= id < from + |strs| ==> id in vocab && vocab[id] == strs[id - from]
  }

  /** The vocabulary of `u` has exactly the ids 0 .. |u| - 1. */
  lemma {:induction false} CharVocabKeys(u: seq<char>)
    ensures |CharVocab(u)| == |u|
    ensures forall k :: k in CharVocab(u) <==> 0 <= k < |u|
  {
    if u != [] {
      var init := u[..|u| - 1];
      CharVocabKeys(init);
      assert CharVocab(u) == CharVocab(init)[|u| - 1 := [u[|u| - 1]]];
    }
  }

  /**
   * The inverse of `u` holds exactly the characters of `u`, as
   * one-character strings, each under its index.
   */
  lemma CharInverseFacts(u: seq<char>)
    requires Increasing(u)
    ensures forall i :: 0 <= i < |u| ==> [u[i]] in CharInverse(u) && CharInverse(u)[[u[i]]] == i
    ensures forall s :: s in CharInverse(u) ==> |s| == 1 && s[0] in u
  {
    var inv := CharInverse(u);
    forall i | 0 <= i < |u|
      ensures [u[i]] in inv && inv[[u[i]]] == i
    {
      var j :| 0 <= j < |u| && [u[j]] == [u[i]] && inv[[u[i]]] == j;
      assert u[j] == [u[j]][0];
    }
  }

  /** The seed's maps agree and know every character of the text. */
  lemma CharSeedInverts(text: string, merges: map<Pair, int>)
    ensures Inverts(CharSeed(text, merges).vocab, CharSeed(text, merges).inverse)
    ensures AllCharsKnown(CharSeed(text, merges).inverse, text)
  {
    var t := CharSeed(text, merges);
    var u := SortedChars(text);
    CharInverseFacts(u);
    forall s | s in t.inverse
      ensures t.inverse[s] in t.vocab && t.vocab[t.inverse[s]] == s
    {
      var j :| 0 <= j < |u| && u[j] == s[0];
      assert s == [u[j]];
    }
    forall k | k in t.vocab
      ensures t.vocab[k] in t.inverse
    {
      assert t.vocab[k] == [u[k]];
    }
    forall i | 0 <= i < |text|
      ensures [text[i]] in t.inverse
    {
      assert text[i] in u;
      var j :| 0 <= j < |u| && u[j] == text[i];
    }
  }

  /** The seed is empty exactly for the empty text. */
  lemma CharSeedEmpty(text: string, merges: map<Pair, int>)
    ensures CharSeed(text, merges).vocab == map[] <==> text == []
    ensures text == [] ==> CharSeed(text, merges) == Tables(map[], map[], merges)
  {
    var u := SortedChars(text);
    CharVocabKeys(u);
    if text != [] {
      assert text[0] in u;
    } else {
      assert u == [];
      assert CharInverse(u) == map[];
    }
  }

  /**
   * The seed of a fresh tokenizer: ids 0 .. k - 1 for the k sorted distinct
   * characters, in order, with the two maps agreeing and every character of
   * the text known.
   */
  lemma CharSeedFresh(text: string)
    ensures var t := CharSeed(text, map[]);
      var u := SortedChars(text);
      && Coherent(t) && Contiguous(t.vocab) && |t.vocab| == |u|
      && CharsFirst(t.vocab, u) && AllCharsKnown(t.inverse, text)
  {
    CharVocabKeys(SortedChars(text));
    CharSeedInverts(text, map[]);
  }

  /** The inverse of the seed holds exactly the characters of the text. */
  lemma CharSeedInverse(text: string, merges: map<Pair, int>)
    ensures forall s :: s in CharSeed(text, merges).inverse <==> |s| == 1 && s[0] in text
  {
    var t := CharSeed(text, merges);
    var u := SortedChars(text);
    CharInverseFacts(u);
    forall s | |s| == 1 && s[0] in text
      ensures s in t.inverse
    {
      var i :| 0 <= i < |u| && u[i] == s[0];
      assert s == [u[i]];
    }
  }

  /** A non-empty sequence holds its first element (a proof step for the solver; it models nothing). */
  lemma HeadIsIn(s: seq<char>)
    ensures s != [] ==> s[0] in s
  {
  }

  /** Two strictly increasing sequences with the same characters are equal. */
  lemma {:induction false} IncreasingUnique(u: seq<char>, v: seq<char>)
    requires Increasing(u) && Increasing(v)
    requires forall c :: c in u <==> c in v
    ensures u == v
  {
    if u == [] || v == [] {
      HeadIsIn(u);
      HeadIsIn(v);
    } else {
      assert v[0] in u && u[0] in v;
      var i :| 0 <= i < |u| && u[i] == v[0];
      var j :| 0 <= j < |v| && v[j] == u[0];
      assert u[0] <= u[i] && v[0] <= v[j];
      assert u[0] == v[0];
      forall c
        ensures c in u[1..] <==> c in v[1..]
      {
        if c in u[1..] {
          var k :| 1 <= k < |u| && u[k] == c;
          assert u[0] < u[k] && c in u && c in v;
          var m :| 0 <= m < |v| && v[m] == c;
        }
        if c in v[1..] {
          var k :| 1 <= k < |v| && v[k] == c;
          assert v[0] < v[k] && c in v && c in u;
          var m :| 0 <= m < |u| && u[m] == c;
        }
      }
      IncreasingUnique(u[1..], v[1..]);
      assert u == [u[0]] + u[1..] && v == [v[0]] + v[1..];
    }
  }

  /**
   * `SortedChars` is `sorted(set(s))`: the one strictly increasing sequence
   * holding exactly the characters of `s`.
   */
  lemma SortedCharsUnique(s: string, v: seq<char>)
    requires Increasing(v) && forall c :: c in v <==> c in s
    ensures SortedChars(s) == v
  {
    IncreasingUnique(SortedChars(s), v);
  }

  // ---------------------------------------------------------------------
  // Training
  // ---------------------------------------------------------------------

  /**
   * The specials loop: each special gets the id `max(vocab) + 1`, even one
   * that already has an id; `max` of an empty vocabulary fails.
   */
  function AppendSpecials(t: Tables, specials: seq<string>): (r: (Outcome, Tables))
    ensures r.0.Fail? ==> t.vocab == map[] && r.0.error == MaxOfEmpty && r.1 == t
    ensures r.1.merges == t.merges
    decreases |specials|
  {
    if specials == [] then (Pass, t)
    else if t.vocab == map[] then (Fail(MaxOfEmpty), t)
    else
      var id := MaxKey(t.vocab) + 1;
      AppendSpecials(Tables(t.vocab[id := specials[0]], t.inverse[specials[0] := id], t.merges), specials[1..])
  }

  /**
   * Appending specials fails exactly on an empty vocabulary with specials
   * to add, leaving the tables as they were; it never touches the merge
   * rules.
   */
  lemma {:induction false} AppendSpecialsOutcome(t: Tables, specials: seq<string>)
    ensures var r := AppendSpecials(t, specials);
      && (r.0.Fail? <==> t.vocab == map[] && specials != [])
      && (r.0.Fail? ==> r.0.error == MaxOfEmpty && r.1 == t)
      && r.1.merges == t.merges
    decreases |specials|
  {
    if specials != [] && t.vocab != map[] {
      var id := MaxKey(t.vocab) + 1;
      var next := Tables(t.vocab[id := specials[0]], t.inverse[specials[0] := id], t.merges);
      AppendSpecialsOutcome(next, specials[1..]);
      assert next.vocab != map[] by { assert id in next.vocab; }
    }
  }

  /**
   * On contiguous coherent tables, appending specials keeps the maps
   * coherent and the ids contiguous, keeps every entry there was, and adds
   * one entry per special, in order, after the last id: a special already
   * present is added again.
   */
  lemma {:induction false} AppendSpecialsFacts(t: Tables, specials: seq<string>)
    requires Coherent(t) && Contiguous(t.vocab)
    ensures var r := AppendSpecials(t, specials);
      r.0.Pass? ==>
        && Coherent(r.1) && Contiguous(r.1.vocab) && VocabExtends(t.vocab, r.1.vocab)
        && |r.1.vocab| == |t.vocab| + |specials|
        && SpecialsAt(r.1.vocab, |t.vocab|, specials)
    decreases |specials|
  {
    if specials != [] && t.vocab != map[] {
      AddSpecialKeeps(t, specials[0]);
      var id := |t.vocab|;
      var next := Tables(t.vocab[id := specials[0]], t.inverse[specials[0] := id], t.merges);
      assert |next.vocab| == id + 1 && id in next.vocab && next.vocab[id] == specials[0];
      AppendSpecialsFacts(next, specials[1..]);
      var r := AppendSpecials(t, specials);
      AppendSpecialsNext(t, specials);
      if r.0.Pass? {
        assert id in r.1.vocab && r.1.vocab[id] == specials[0];
        SpecialsAtShift(r.1.vocab, id, specials);
      }
    }
  }

  /** On contiguous ids the first special goes under `len(vocab)` (a proof step for the solver). */
  lemma AppendSpecialsNext(t: Tables, specials: seq<string>)
    requires Coherent(t) && Contiguous(t.vocab) && t.vocab != map[] && specials != []
    ensures var id := |t.vocab|;
      AppendSpecials(t, specials) ==
        AppendSpecials(Tables(t.vocab[id := specials[0]], t.inverse[specials[0] := id], t.merges), specials[1..])
  {
    AddSpecialKeeps(t, specials[0]);
  }

  /** Specials placed from `from + 1` on, after the first one at `from`, are all placed from `from`. */
  lemma SpecialsAtShift(vocab: map<int, string>, from: int, specials: seq<string>)
    requires specials != [] && from in vocab && vocab[from] == specials[0]
    requires SpecialsAt(vocab, from + 1, specials[1..])
    ensures SpecialsAt(vocab, from, specials)
  {
    forall id | from < id < from + |specials|
      ensures vocab[id] == specials[id - from]
    {
      assert specials[1..][id - (from + 1)] == specials[id - from];
    }
  }

  /**
   * One special added under the next id of contiguous coherent tables
   * keeps them coherent and contiguous.
   */
  lemma AddSpecialKeeps(t: Tables, special: string)
    requires Coherent(t) && Contiguous(t.vocab) && t.vocab != map[]
    ensures MaxKey(t.vocab) + 1 == |t.vocab| && |t.vocab| !in t.vocab
    ensures var next := Tables(t.vocab[|t.vocab| := special], t.inverse[special := |t.vocab|], t.merges);
      Coherent(next) && Contiguous(next.vocab) && VocabExtends(t.vocab, next.vocab)
  {
    ContiguousMax(t.vocab);
    var id := |t.vocab|;
    var next := Tables(t.vocab[id := special], t.inverse[special := id], t.merges);
    assert Inverts(next.vocab, next.inverse);
    assert Spells(next.vocab, next.merges);
  }

  /** The tables the merge loop of `train` stops with, from the seed of `text`. */
  function Merged(text: string, size: int, merges: map<Pair, int>): (r: Tables)
    ensures CharsFirst(r.vocab, SortedChars(text)) && merges.Keys <= r.merges.Keys
  {
    var seed := CharSeed(text, merges);
    CharSeedInverts(text, merges);
    CharIdsSpell(seed.vocab, seed.inverse, text);
    MergeLoop(seed, CharIds(seed.inverse, text), size).0
  }

  /**
   * `train(text, vocab_size, allowed_special)` of the character-level
   * stage: the outcome and the tables afterwards.
   */
  function TrainSpec(text: string, size: int, specials: seq<string>, merges: map<Pair, int>): (r: (Outcome, Tables))
    ensures r.0.Fail? ==> r.0.error == MaxOfEmpty
    ensures merges.Keys <= r.1.merges.Keys
  {
    AppendSpecials(Merged(text, size, merges), specials)
  }

  /**
   * The merge loop of a fresh tokenizer keeps the sorted distinct
   * characters under ids 0 .. k - 1, keeps the maps coherent and the ids
   * contiguous, adds one entry per rule, and stops at the requested size.
   */
  lemma MergedFresh(text: string, size: int)
    ensures var m := Merged(text, size, map[]);
      var u := SortedChars(text);
      && Coherent(m) && Contiguous(m.vocab) && CharsFirst(m.vocab, u)
      && |m.vocab| == |u| + |m.merges|
      && (|u| <= size ==> |m.vocab| <= size)
  {
    var seed := CharSeed(text, map[]);
    CharSeedFresh(text);
    CharIdsSpell(seed.vocab, seed.inverse, text);
    var ids := CharIds(seed.inverse, text);
    MergeLoopFromFresh(seed, ids, size);
  }

  /**
   * Training fails only on an empty text with specials to add. On an empty
   * text without specials the vocabulary stays empty and no rule is
   * learned.
   */
  lemma TrainOutcome(text: string, size: int, specials: seq<string>, merges: map<Pair, int>)
    ensures TrainSpec(text, size, specials, merges).0.Fail? <==> text == [] && specials != []
    ensures TrainSpec(text, size, specials, merges).0.Fail? ==>
      TrainSpec(text, size, specials, merges).0.error == MaxOfEmpty
    ensures text == [] && specials == [] ==>
      TrainSpec(text, size, specials, merges) == (Pass, Tables(map[], map[], merges))
  {
    var seed := CharSeed(text, merges);
    CharSeedInverts(text, merges);
    CharIdsSpell(seed.vocab, seed.inverse, text);
    CharSeedEmpty(text, merges);
    var ids := CharIds(seed.inverse, text);
    var merged := MergeLoop(seed, ids, size).0;
    assert Merged(text, size, merges) == merged;
    if text == [] {
      assert ids == [] && FindFreqPair(ids) == None;
      assert merged == seed;
      if specials != [] {
        assert AppendSpecials(merged, specials) == (Fail(MaxOfEmpty), merged);
      }
    } else {
      AppendSpecialsOutcome(merged, specials);
    }
  }

  /**
   * The tables after a successful training of a fresh tokenizer: the
   * sorted distinct characters keep ids 0 .. k - 1, the maps agree, the ids
   * are contiguous, each learned rule added one entry, and the specials
   * follow in order after the merges, so the vocabulary ends up larger than
   * requested by one entry per special.
   */
  lemma {:induction false} TrainedState(text: string, size: int, specials: seq<string>)
    requires TrainSpec(text, size, specials, map[]).0 == Pass
    ensures var t := TrainSpec(text, size, specials, map[]).1;
      var u := SortedChars(text);
      && Coherent(t) && Contiguous(t.vocab) && CharsFirst(t.vocab, u)
      && |t.vocab| == |u| + |t.merges| + |specials|
      && SpecialsAt(t.vocab, |t.vocab| - |specials|, specials)
      && (|u| <= size ==> |t.vocab| <= size + |specials|)
  {
    MergedFresh(text, size);
    SpecialsAfterMerges(SortedChars(text), Merged(text, size, map[]), size, specials, TrainSpec(text, size, specials, map[]).1);
  }

  /** The last step of `TrainedState`: appending the specials to the merged tables. */
  lemma {:induction false} SpecialsAfterMerges(u: seq<char>, merged: Tables, size: int, specials: seq<string>, t: Tables)
    requires Coherent(merged) && Contiguous(merged.vocab) && |merged.vocab| == |u| + |merged.merges|
    requires CharsFirst(merged.vocab, u)
    requires |u| <= size ==> |merged.vocab| <= size
    requires AppendSpecials(merged, specials) == (Pass, t)
    ensures && Coherent(t) && Contiguous(t.vocab) && CharsFirst(t.vocab, u)
      && |t.vocab| == |u| + |t.merges| + |specials|
      && SpecialsAt(t.vocab, |t.vocab| - |specials|, specials)
      && (|u| <= size ==> |t.vocab| <= size + |specials|)
  {
    AppendSpecialsOutcome(merged, specials);
    AppendSpecialsFacts(merged, specials);
    assert |t.vocab| - |specials| == |merged.vocab|;
  }

  /**
   * A text whose characters are all different has no repeated pair, so
   * training learns nothing: the tables are the seed's.
   */
  lemma TrainDistinctLearnsNothing(text: string, size: int, merges: map<Pair, int>)
    requires forall i, j :: 0 <= i < j < |text| ==> text[i] != text[j]
    ensures Merged(text, size, merges) == CharSeed(text, merges)
  {
    var seed := CharSeed(text, merges);
    CharSeedInverts(text, merges);
    CharIdsSpell(seed.vocab, seed.inverse, text);
    var ids := CharIds(seed.inverse, text);
    forall i, j | 0 <= i < j < |ids|
      ensures ids[i] != ids[j]
    {
      assert seed.vocab[ids[i]] == [text[i]] && seed.vocab[ids[j]] == [text[j]];
      assert [text[i]][0] != [text[j]][0];
    }
    MergeLoopOnDistinctIds(seed, ids, size);
  }

  /** "ababab" at size 3 learns the one rule (0, 1) -> 2, with id 2 spelling "ab". */
  lemma TrainExampleRepeated(text: string)
    requires |text| == 6 && forall i :: 0 <= i < 6 ==> text[i] == if i % 2 == 0 then 'a' else 'b'
    ensures var t := TrainSpec(text, 3, [], map[]);
      && t.0 == Pass && t.1.merges == map[(0, 1) := 2] && |t.1.vocab| == 3
      && 2 in t.1.vocab && t.1.vocab[2] == "ab"
  {
    var seed := Tables(map[0 := "a", 1 := "b"], map["a" := 0, "b" := 1], map[]);
    var ids := [0, 1, 0, 1, 0, 1];
    ExampleSeed(text);
    ExampleIds(text, seed.inverse);
    ExampleLearnsAb(seed, ids);
    TrainWithoutSpecials(text, 3, map[], seed, ids);
  }

  /** Without specials, training is the merge loop from the seed alone, and always passes. */
  lemma TrainWithoutSpecials(text: string, size: int, merges: map<Pair, int>, seed: Tables, ids: seq<int>)
    requires seed == CharSeed(text, merges)
    requires AllCharsKnown(seed.inverse, text) && ids == CharIds(seed.inverse, text)
    ensures Known(seed.vocab, ids)
    ensures TrainSpec(text, size, [], merges) == (Pass, MergeLoop(seed, ids, size).0)
  {
    CharSeedInverts(text, merges);
    CharIdsSpell(seed.vocab, seed.inverse, text);
  }

  /** Looked up in the seed of "ababab", the text is 0 1 0 1 0 1. */
  lemma ExampleIds(text: string, inverse: map<string, int>)
    requires |text| == 6 && forall i :: 0 <= i < 6 ==> text[i] == if i % 2 == 0 then 'a' else 'b'
    requires inverse == map["a" := 0, "b" := 1]
    ensures AllCharsKnown(inverse, text) && CharIds(inverse, text) == [0, 1, 0, 1, 0, 1]
  {
    assert forall i :: 0 <= i < 6 ==> [text[i]] == if i % 2 == 0 then "a" else "b";
  }

  /** The seed of "ababab": 'a' and 'b' under the ids 0 and 1. */
  lemma ExampleSeed(text: string)
    requires |text| == 6 && forall i :: 0 <= i < 6 ==> text[i] == if i % 2 == 0 then 'a' else 'b'
    ensures CharSeed(text, map[]) == Tables(map[0 := "a", 1 := "b"], map["a" := 0, "b" := 1], map[])
  {
    ExampleChars(text);
    ExampleVocab("ab");
    ExampleInverse("ab");
  }

  /** The sorted distinct characters of "ababab" are "ab". */
  lemma ExampleChars(text: string)
    requires |text| == 6 && forall i :: 0 <= i < 6 ==> text[i] == if i % 2 == 0 then 'a' else 'b'
    ensures SortedChars(text) == "ab"
  {
    forall c
      ensures c in "ab" <==> c in text
    {
      if c == 'a' { assert text[0] == c; }
      if c == 'b' { assert text[1] == c; }
    }
    SortedCharsUnique(text, "ab");
  }

  /** The vocabulary built from "ab": 'a' under 0 and 'b' under 1. */
  lemma ExampleVocab(u: seq<char>)
    requires |u| == 2 && u[0] == 'a' && u[1] == 'b'
    ensures CharVocab(u) == map[0 := "a", 1 := "b"]
  {
    CharVocabKeys(u);
  }

  /** The inverse built from "ab": "a" to 0 and "b" to 1. */
  lemma ExampleInverse(u: seq<char>)
    requires |u| == 2 && u[0] == 'a' && u[1] == 'b'
    ensures Increasing(u) && CharInverse(u) == map["a" := 0, "b" := 1]
  {
    CharInverseFacts(u);
    var inv := CharInverse(u);
    assert [u[0]] == "a" && [u[1]] == "b";
    forall s | s in inv
      ensures s == "a" || s == "b"
    {
      assert |s| == 1 && s[0] in u;
      assert s == [s[0]];
    }
    assert inv.Keys == {"a", "b"};
  }

  /** The merge loop over the ids 0 1 0 1 0 1 of "ababab" learns (0, 1) and stops at size 3. */
  lemma ExampleLearnsAb(seed: Tables, ids: seq<int>)
    requires seed == Tables(map[0 := "a", 1 := "b"], map["a" := 0, "b" := 1], map[])
    requires ids == [0, 1, 0, 1, 0, 1]
    ensures Known(seed.vocab, ids)
    ensures var t := MergeLoop(seed, ids, 3).0;
      && t.merges == map[(0, 1) := 2] && |t.vocab| == 3 && t.vocab[2] == "ab"
  {
    ExampleFreqPair();
    assert 0 in seed.vocab && 1 in seed.vocab;
    assert MaxKey(seed.vocab) == 1;
    var next := Learn(seed, (0, 1));
    var swept := Sweep(ids, map[(0, 1) := 2]);
    MergeLoopStep(seed, ids, 3, (0, 1), 2, next, swept);
  }

  /** In 0 1 0 1 0 1 the pair (0, 1) occurs three times, more than any other. */
  lemma ExampleFreqPair()
    ensures FindFreqPair([0, 1, 0, 1, 0, 1]) == Some((0, 1))
  {
    var ids := [0, 1, 0, 1, 0, 1];
    assert ids[1..] == [1, 0, 1, 0, 1];
    assert ids[1..][1..] == [0, 1, 0, 1];
    assert ids[1..][1..][1..] == [1, 0, 1];
    assert ids[1..][1..][1..][1..] == [0, 1];
    assert ids[1..][1..][1..][1..][1..] == [1];
  }

  // ---------------------------------------------------------------------
  // Encoding and decoding
  // ---------------------------------------------------------------------

  /** An entry of `special_encoded_split`: a text and, for a special, its id. */
  datatype Piece = Piece(text: string, token: Option<int>)

  /**
   * The `for i, itext in enumerate(left_split)` loop from index `i` on:
   * each non-empty part as ordinary text, and the special between parts.
   */
  function PiecesFrom(parts: seq<string>, special: string, id: int, i: nat): (r: seq<Piece>)
    requires i <= |parts|
    ensures forall k :: 0 <= k < |r| && r[k].token.Some? ==> r[k] == Piece(special, Some(id))
    decreases |parts| - i
  {
    if i == |parts| then []
    else
      (if parts[i] != "" then [Piece(parts[i], None)] else [])
      + (if i < |parts| - 1 then [Piece(special, Some(id))] else [])
      + PiecesFrom(parts, special, id, i + 1)
  }

  /** The pieces built before part `i`, then the pieces from `i` on: one step of the loop. */
  lemma PiecesFromNext(parts: seq<string>, special: string, id: int, i: nat, pieces: seq<Piece>)
    requires i < |parts|
    ensures pieces + PiecesFrom(parts, special, id, i) ==
      pieces + ((if parts[i] != "" then [Piece(parts[i], None)] else [])
        + (if i < |parts| - 1 then [Piece(special, Some(id))] else []))
      + PiecesFrom(parts, special, id, i + 1)
  {
    var step := (if parts[i] != "" then [Piece(parts[i], None)] else [])
      + (if i < |parts| - 1 then [Piece(special, Some(id))] else []);
    assert PiecesFrom(parts, special, id, i) == step + PiecesFrom(parts, special, id, i + 1);
    assert pieces + step + PiecesFrom(parts, special, id, i + 1)
      == pieces + (step + PiecesFrom(parts, special, id, i + 1));
  }

  /**
   * One pass of the inner loop over the only queued entry, the whole text,
   * for the special `special`: split on it when it occurs (`str.split`
   * refuses an empty separator), else keep the text whole.
   */
  function SplitStep(t: Tables, text: string, special: string): (r: Result<seq<Piece>>)
    requires special in t.inverse
    ensures r.Err? <==> special == "" && Contains(text, special)
    ensures r.Err? ==> r.error == EmptySeparator
  {
    if Contains(text, special) then
      if special == "" then Err(EmptySeparator)
      else
        var parts := SplitOn(text, special);
        var id := t.inverse[special];
        Ok(if parts == [""] then [Piece(special, Some(id))] else PiecesFrom(parts, special, id, 0))
    else Ok([Piece(text, None)])
  }

  /**
   * `special_encoded_split`: the whole text without specials; otherwise the
   * split on the first special, and `popleft` on the emptied deque for a
   * second special.
   */
  function Pieces(t: Tables, text: string, allowed: seq<string>): (r: Result<seq<Piece>>)
    requires SpecialsKnown(t, allowed)
    ensures r.Ok? ==> |allowed| <= 1
    ensures r.Err? ==> (|allowed| >= 2 && r.error == EmptyDequePop) || (allowed != [] && allowed[0] == "" && r.error == EmptySeparator)
  {
    if allowed == [] then Ok([Piece(text, None)])
    else match SplitStep(t, text, allowed[0])
      case Err(e) => Err(e)
      case Ok(pieces) => if |allowed| >= 2 then Err(EmptyDequePop) else Ok(pieces)
  }

  /** `"".join(text for text, pre_token in pieces if pre_token is None)`. */
  function PlainText(pieces: seq<Piece>): (r: string)
    ensures |r| <= |AllText(pieces)|
    ensures (forall k :: 0 <= k < |pieces| ==> pieces[k].token.Some?) ==> r == ""
  {
    if pieces == [] then ""
    else (if pieces[0].token.None? then pieces[0].text else "") + PlainText(pieces[1..])
  }

  /** The text joined before piece `i`, then the rest: one step of the joining loop. */
  lemma PlainTextNext(pieces: seq<Piece>, i: nat, plain: string)
    requires i < |pieces|
    ensures plain + PlainText(pieces[i..]) ==
      plain + (if pieces[i].token.None? then pieces[i].text else "") + PlainText(pieces[i + 1..])
  {
    assert pieces[i..][1..] == pieces[i + 1..];
  }

  /** Every character of every ordinary piece has an id. */
  predicate PiecesKnown(inverse: map<string, int>, pieces: seq<Piece>)
  {
    forall k :: 0 <= k < |pieces| && pieces[k].token.None? ==> AllCharsKnown(inverse, pieces[k].text)
  }

  /** The characters of the joined ordinary text are known exactly when those of each piece are. */
  lemma {:induction false} PlainTextKnown(inverse: map<string, int>, pieces: seq<Piece>)
    ensures AllCharsKnown(inverse, PlainText(pieces)) <==> PiecesKnown(inverse, pieces)
  {
    if pieces != [] {
      PlainTextKnown(inverse, pieces[1..]);
      var head := if pieces[0].token.None? then pieces[0].text else "";
      var rest := PlainText(pieces[1..]);
      assert PlainText(pieces) == head + rest;
      KnownAppend(inverse, head, rest);
      PiecesKnownCons(inverse, pieces);
    }
  }

  /** The characters of `a + b` all have ids exactly when those of `a` and of `b` do. */
  lemma KnownAppend(inverse: map<string, int>, a: string, b: string)
    ensures AllCharsKnown(inverse, a + b) <==> AllCharsKnown(inverse, a) && AllCharsKnown(inverse, b)
  {
    assert forall i :: 0 <= i < |a| ==> (a + b)[i] == a[i];
    assert forall i :: 0 <= i < |b| ==> (a + b)[|a| + i] == b[i];
  }

  /** The pieces are known exactly when the first one and the rest are. */
  lemma PiecesKnownCons(inverse: map<string, int>, pieces: seq<Piece>)
    requires pieces != []
    ensures PiecesKnown(inverse, pieces) <==>
      AllCharsKnown(inverse, if pieces[0].token.None? then pieces[0].text else "") && PiecesKnown(inverse, pieces[1..])
  {
    assert forall k :: 1 <= k < |pieces| ==> pieces[k] == pieces[1..][k - 1];
  }

  /** Step 3 of `encode`: a special's id, or the merged character ids of ordinary text. */
  function EncodePieces(t: Tables, pieces: seq<Piece>): (r: seq<int>)
    requires PiecesKnown(t.inverse, pieces)
    ensures |r| <= |pieces| + |PlainText(pieces)|
  {
    if pieces == [] then []
    else
      assert pieces[0].token.None? ==> AllCharsKnown(t.inverse, pieces[0].text);
      (if pieces[0].token.Some? then [pieces[0].token.value] else Sweep(CharIds(t.inverse, pieces[0].text), t.merges))
      + EncodePieces(t, pieces[1..])
  }

  /** `encode(text, allowed_specials)` of the character-level stage. */
  function Encode(t: Tables, text: string, allowed: seq<string>): (r: Result<seq<int>>)
    ensures t.vocab == map[] ==> r == Err(NotTrained)
    ensures t.vocab != map[] && text == "" ==> r == Ok([])
    ensures t.vocab != map[] && text != "" && allowed != [] && !SpecialsKnown(t, allowed) ==> r == Err(UnknownSpecial)
    ensures t.vocab != map[] && text != "" && SpecialsKnown(t, allowed) && |allowed| >= 2 && allowed[0] != "" ==> r == Err(EmptyDequePop)
    ensures t.vocab != map[] && text != "" && SpecialsKnown(t, allowed) && allowed != [] && allowed[0] == "" ==> r == Err(EmptySeparator)
    ensures t.vocab != map[] && text != "" && allowed == [] ==>
      r == if AllCharsKnown(t.inverse, text) then Ok(Sweep(CharIds(t.inverse, text), t.merges)) else Err(UnknownCharacter)
  {
    if |t.vocab| == 0 then Err(NotTrained)
    else if |text| == 0 then Ok([])
    else if |allowed| > 0 && !SpecialsKnown(t, allowed) then Err(UnknownSpecial)
    else
      WholePiece(t, text);
      match Pieces(t, text, allowed)
      case Err(e) => Err(e)
      case Ok(pieces) =>
        if !AllCharsKnown(t.inverse, PlainText(pieces)) then Err(UnknownCharacter)
        else
          PlainTextKnown(t.inverse, pieces);
          Ok(EncodePieces(t, pieces))
  }

  /**
   * One allowed non-empty special, the only case in which `encode`
   * succeeds with specials: it is refused exactly when a character of an
   * ordinary piece has no id (the special's own characters are never
   * looked up), and otherwise gives the pieces encoded in order.
   */
  lemma EncodeOneSpecial(t: Tables, text: string, special: string)
    requires t.vocab != map[] && text != "" && special in t.inverse && special != ""
    ensures Pieces(t, text, [special]).Ok?
    ensures var pieces := Pieces(t, text, [special]).value;
      Encode(t, text, [special]) ==
        if PiecesKnown(t.inverse, pieces) then Ok(EncodePieces(t, pieces)) else Err(UnknownCharacter)
  {
    PlainTextKnown(t.inverse, Pieces(t, text, [special]).value);
  }

  /** The text kept whole is its own ordinary text, encoded by one merge sweep. */
  lemma WholePiece(t: Tables, text: string)
    ensures PlainText([Piece(text, None)]) == text
    ensures PiecesKnown(t.inverse, [Piece(text, None)]) <==> AllCharsKnown(t.inverse, text)
    ensures AllCharsKnown(t.inverse, text) ==>
      EncodePieces(t, [Piece(text, None)]) == Sweep(CharIds(t.inverse, text), t.merges)
  {
    assert PlainText([Piece(text, None)]) == text + PlainText([]);
    if AllCharsKnown(t.inverse, text) {
      var ids := Sweep(CharIds(t.inverse, text), t.merges);
      assert EncodePieces(t, [Piece(text, None)]) == ids + EncodePieces(t, []);
    }
  }

  /** `decode(token_ids)`: a plain join, refusing ids with no vocabulary entry. */
  function Decode(vocab: map<int, string>, ids: seq<int>): (r: Result<string>)
    ensures r.Ok? <==> Known(vocab, ids)
    ensures r.Err? ==> r.error == UnknownTokenId
    ensures ids == [] ==> r == Ok("")
  {
    if !Known(vocab, ids) then Err(UnknownTokenId) else Ok(Join(vocab, ids))
  }

  /** All the texts of the pieces joined, specials included. */
  function AllText(pieces: seq<Piece>): string
  {
    if pieces == [] then "" else pieces[0].text + AllText(pieces[1..])
  }

  /** Every special piece carries an id that spells it. */
  predicate TokensSpell(vocab: map<int, string>, pieces: seq<Piece>)
  {
    forall k :: 0 <= k < |pieces| && pieces[k].token.Some? ==>
      pieces[k].token.value in vocab && vocab[pieces[k].token.value] == pieces[k].text
  }

  /** Encoded pieces spell the texts of the pieces, in order. */
  lemma {:induction false} EncodePiecesSpell(t: Tables, pieces: seq<Piece>)
    requires Coherent(t) && PiecesKnown(t.inverse, pieces) && TokensSpell(t.vocab, pieces)
    ensures Known(t.vocab, EncodePieces(t, pieces))
    ensures Join(t.vocab, EncodePieces(t, pieces)) == AllText(pieces)
  {
    if pieces != [] {
      var p := pieces[0];
      assert PiecesKnown(t.inverse, pieces[1..]) && TokensSpell(t.vocab, pieces[1..]) by {
        assert forall k :: 1 <= k < |pieces| ==> pieces[k] == pieces[1..][k - 1];
      }
      EncodePiecesSpell(t, pieces[1..]);
      var head := if p.token.Some? then [p.token.value] else Sweep(CharIds(t.inverse, p.text), t.merges);
      if p.token.Some? {
        assert Join(t.vocab, head) == p.text + Join(t.vocab, []);
      } else {
        CharIdsSpell(t.vocab, t.inverse, p.text);
        SweepPreservesJoin(t.vocab, t.merges, CharIds(t.inverse, p.text));
      }
      JoinAppend(t.vocab, head, EncodePieces(t, pieces[1..]));
    }
  }

  /**
   * The pieces from part `i` on spell the parts from `i` on joined with
   * the special.
   */
  lemma {:induction false} PiecesFromSpell(parts: seq<string>, special: string, id: int, i: nat)
    requires i < |parts|
    ensures AllText(PiecesFrom(parts, special, id, i)) == JoinWith(parts[i..], special)
    decreases |parts| - i
  {
    if i < |parts| - 1 {
      PiecesFromSpell(parts, special, id, i + 1);
    }
    PiecesFromSpellStep(parts, special, id, i);
  }

  /** One step of `PiecesFromSpell`, given its result from part `i + 1` on. */
  lemma PiecesFromSpellStep(parts: seq<string>, special: string, id: int, i: nat)
    requires i < |parts|
    requires i < |parts| - 1 ==> AllText(PiecesFrom(parts, special, id, i + 1)) == JoinWith(parts[i + 1..], special)
    ensures AllText(PiecesFrom(parts, special, id, i)) == JoinWith(parts[i..], special)
  {
    var head := if parts[i] != "" then [Piece(parts[i], None)] else [];
    var sep := if i < |parts| - 1 then [Piece(special, Some(id))] else [];
    var rest := PiecesFrom(parts, special, id, i + 1);
    assert PiecesFrom(parts, special, id, i) == head + sep + rest by {
      PiecesFromNext(parts, special, id, i, []);
    }
    PiecesFromStepText(parts[i], head, sep, rest);
    if i < |parts| - 1 {
      assert AllText(sep) == special + AllText([]);
      assert parts[i..] == [parts[i]] + parts[i + 1..];
      JoinWithCons(parts[i], parts[i + 1..], special);
    } else {
      assert parts[i..] == [parts[i]];
    }
  }

  /** The text of one step of the loop: the part, when kept, then the separator, then the rest. */
  lemma PiecesFromStepText(part: string, head: seq<Piece>, sep: seq<Piece>, rest: seq<Piece>)
    requires head == if part != "" then [Piece(part, None)] else []
    ensures AllText(head + sep + rest) == part + AllText(sep) + AllText(rest)
  {
    assert AllText(head) == part by {
      if part != "" {
        assert AllText(head) == part + AllText([]);
      }
    }
    AllTextAppend(head, sep);
    AllTextAppend(head + sep, rest);
  }

  /**
   * Every piece from part `i` on is either a non-empty part from `i` on,
   * as ordinary text, or the special with its id.
   */
  lemma {:induction false} PiecesFromShape(parts: seq<string>, special: string, id: int, i: nat)
    requires i <= |parts|
    ensures forall k :: 0 <= k < |PiecesFrom(parts, special, id, i)| ==>
      var p := PiecesFrom(parts, special, id, i)[k];
      (p.token.None? ==> p.text != "" && p.text in parts[i..]) && (p.token.Some? ==> p == Piece(special, Some(id)))
    decreases |parts| - i
  {
    if i < |parts| {
      var ps := PiecesFrom(parts, special, id, i);
      var head := if parts[i] != "" then [Piece(parts[i], None)] else [];
      var sep := if i < |parts| - 1 then [Piece(special, Some(id))] else [];
      var rest := PiecesFrom(parts, special, id, i + 1);
      assert ps == head + sep + rest;
      PiecesFromShape(parts, special, id, i + 1);
      forall k | 0 <= k < |ps|
        ensures var p := ps[k];
          (p.token.None? ==> p.text != "" && p.text in parts[i..]) && (p.token.Some? ==> p == Piece(special, Some(id)))
      {
        if k >= |head| + |sep| {
          assert ps[k] == rest[k - |head| - |sep|];
          assert parts[i + 1..] == parts[i..][1..];
        }
      }
    }
  }

  /** Joining the texts distributes over appending pieces. */
  lemma {:induction false} AllTextAppend(a: seq<Piece>, b: seq<Piece>)
    ensures AllText(a + b) == AllText(a) + AllText(b)
  {
    if a != [] {
      assert (a + b)[0] == a[0] && (a + b)[1..] == a[1..] + b;
      AllTextAppend(a[1..], b);
      calc {
        AllText(a + b);
        a[0].text + AllText(a[1..] + b);
        a[0].text + (AllText(a[1..]) + AllText(b));
        (a[0].text + AllText(a[1..])) + AllText(b);
        AllText(a) + AllText(b);
      }
    } else {
      assert a + b == b;
    }
  }

  /**
   * The pieces of a non-empty text spell it back, and every special piece
   * carries the special's id: nothing is lost at the split. The `['']`
   * case cannot arise, as only an empty text splits that way.
   */
  lemma PiecesSpellText(t: Tables, text: string, allowed: seq<string>)
    requires Inverts(t.vocab, t.inverse) && SpecialsKnown(t, allowed) && text != ""
    requires Pieces(t, text, allowed).Ok?
    ensures AllText(Pieces(t, text, allowed).value) == text
    ensures TokensSpell(t.vocab, Pieces(t, text, allowed).value)
  {
    var pieces := Pieces(t, text, allowed).value;
    if allowed != [] && Contains(text, allowed[0]) {
      var special := allowed[0];
      var parts := SplitOn(text, special);
      var id := t.inverse[special];
      SplitJoinRoundTrip(text, special);
      SplitOfContainingText(text, special);
      assert parts != [""];
      assert pieces == PiecesFrom(parts, special, id, 0);
      PiecesFromSpell(parts, special, id, 0);
      PiecesFromShape(parts, special, id, 0);
      assert parts[0..] == parts;
    } else {
      assert pieces == [Piece(text, None)];
      assert AllText(pieces) == text + AllText([]);
    }
  }

  /**
   * Round trip: whatever `encode` accepts, `decode` turns back into the
   * very same text. Merges only substitute ids that spell their pair, and
   * each special's id spells the special.
   */
  lemma RoundTrip(t: Tables, text: string, allowed: seq<string>)
    requires Coherent(t) && Encode(t, text, allowed).Ok?
    ensures Decode(t.vocab, Encode(t, text, allowed).value) == Ok(text)
  {
    if text != "" {
      var pieces := Pieces(t, text, allowed).value;
      PlainTextKnown(t.inverse, pieces);
      PiecesSpellText(t, text, allowed);
      EncodePiecesSpell(t, pieces);
    }
  }

  /**
   * With one allowed special that occurs in the text, each of its
   * occurrences becomes the special's id and the ordinary pieces between
   * them are non-empty and free of it.
   */
  lemma OneSpecialPieces(t: Tables, text: string, special: string)
    requires special in t.inverse && special != "" && Contains(text, special)
    ensures Pieces(t, text, [special]).Ok?
    ensures forall k :: 0 <= k < |Pieces(t, text, [special]).value| ==>
      var p := Pieces(t, text, [special]).value[k];
      (p.token.Some? ==> p == Piece(special, Some(t.inverse[special])))
      && (p.token.None? ==> p.text != "" && !Contains(p.text, special))
  {
    var parts := SplitOn(text, special);
    SplitOfContainingText(text, special);
    PiecesFromSpell(parts, special, t.inverse[special], 0);
    PiecesFromShape(parts, special, t.inverse[special], 0);
    SplitPartsAvoidSeparator(text, special);
    assert parts[0..] == parts;
  }
}

/**
 * The byte-level stage of `BPETokenizer`. Training starts from the 256
 * characters `chr(0)` .. `chr(255)` at their own code points, adds the
 * space marker `Ġ` and the allowed special tokens, and then learns merges.
 * Encoding splits the text around the earliest allowed special token,
 * refuses special-shaped vocabulary strings that are not allowed, and
 * encodes ordinary text after the space preprocessing. Decoding joins the
 * strings and turns every marker back into a space.
 */
module ByteLevel {
  import opened Tokens
  import opened PairCounts
  import opened Merging
  import opened Text
  import opened Training

  // ---------------------------------------------------------------------
  // The initial vocabulary
  // ---------------------------------------------------------------------

  /** `chr(i)`, as a one-character string. */
  function ByteString(i: int): (s: string)
    requires 0 <= i < 256
    ensures |s| == 1 && s[0] as int == i
  {
    [i as char]
  }

  /** `{i: chr(i) for i in range(n)}`. */
  function ByteVocab(n: nat): (v: map<int, string>)
    requires n <= 256
    ensures forall k :: k in v <==> 0 <= k < n
  {
    map i | 0 <= i < n :: ByteString(i)
  }

  /** `{chr(i): i for i in range(n)}`. */
  function ByteInverse(n: nat): (inv: map<string, int>)
    requires n <= 256
  {
    map i | 0 <= i < n :: ByteString(i) := i
  }

  /** The first `n` byte values are `n` entries. */
  lemma {:induction false} ByteVocabSize(n: nat)
    requires n <= 256
    ensures |ByteVocab(n)| == n
  {
    if n > 0 {
      ByteVocabSize(n - 1);
      assert ByteVocab(n) == ByteVocab(n - 1)[n - 1 := ByteString(n - 1)];
    }
  }

  /** The inverse holds exactly the one-character strings below `n`, each under its code point. */
  lemma ByteInverseFacts(n: nat)
    requires n <= 256
    ensures forall s :: s in ByteInverse(n) <==> |s| == 1 && s[0] as int < n
    ensures forall s :: s in ByteInverse(n) ==> ByteInverse(n)[s] == s[0] as int
  {
    forall s | |s| == 1 && s[0] as int < n
      ensures s in ByteInverse(n)
    {
      assert s == ByteString(s[0] as int);
    }
  }

  /** Adds `s` under the id `len(vocab)`. */
  function AddEntry(t: Tables, s: string): (r: Tables)
    ensures s in r.inverse && r.inverse[s] in r.vocab && r.vocab[r.inverse[s]] == s
    ensures r.merges == t.merges
    ensures Contiguous(t.vocab) ==> Contiguous(r.vocab) && |r.vocab| == |t.vocab| + 1
  {
    assert Contiguous(t.vocab) ==> |t.vocab| !in t.vocab;
    var id := |t.vocab|;
    Tables(t.vocab[id := s], t.inverse[s := id], t.merges)
  }

  /** The specials loop: each special not yet in the vocabulary gets the next id. */
  function AddSpecials(t: Tables, specials: seq<string>): (r: Tables)
    ensures t.inverse.Keys <= r.inverse.Keys && r.merges == t.merges
    decreases |specials|
  {
    if specials == [] then t
    else AddSpecials(if specials[0] in t.inverse then t else AddEntry(t, specials[0]), specials[1..])
  }

  /**
   * The specials the loop adds, in order: each one that is not among
   * `present` and that an earlier repeat has not already added.
   */
  function Missing(present: set<string>, specials: seq<string>): (r: seq<string>)
    ensures |r| <= |specials|
    decreases |specials|
  {
    if specials == [] then []
    else if specials[0] in present then Missing(present, specials[1..])
    else [specials[0]] + Missing(present + {specials[0]}, specials[1..])
  }

  /** The tables `train` starts its merge loop from; the old merges are kept. */
  function Seed(specials: seq<string>, merges: map<Pair, int>): (r: Tables)
    ensures [Marker] in r.inverse && r.merges == merges
  {
    var base := Tables(ByteVocab(256), ByteInverse(256), merges);
    var marked := if [Marker] !in base.inverse then AddEntry(base, [Marker]) else base;
    AddSpecials(marked, specials)
  }

  /** An entry under a fresh string keeps the maps inverse and the ids contiguous. */
  lemma AddEntryKeeps(t: Tables, s: string)
    requires Inverts(t.vocab, t.inverse) && Contiguous(t.vocab) && s !in t.inverse
    ensures Inverts(AddEntry(t, s).vocab, AddEntry(t, s).inverse)
    ensures Contiguous(AddEntry(t, s).vocab)
    ensures VocabExtends(t.vocab, AddEntry(t, s).vocab)
    ensures |AddEntry(t, s).vocab| == |t.vocab| + 1
    ensures forall u :: u in t.inverse ==> u in AddEntry(t, s).inverse && AddEntry(t, s).inverse[u] == t.inverse[u]
  {
    var r := AddEntry(t, s);
    forall u | u in r.inverse
      ensures r.inverse[u] in r.vocab && r.vocab[r.inverse[u]] == u
    {
      if u != s {
        assert r.inverse[u] == t.inverse[u];
      }
    }
  }

  /**
   * The specials loop keeps the maps inverse and the ids contiguous, keeps
   * every entry there was, puts every special in the vocabulary, and gives
   * new ids only to specials.
   */
  lemma {:induction false} AddSpecialsKeeps(t: Tables, specials: seq<string>)
    requires Inverts(t.vocab, t.inverse) && Contiguous(t.vocab)
    ensures var r := AddSpecials(t, specials);
      && Inverts(r.vocab, r.inverse) && Contiguous(r.vocab)
      && VocabExtends(t.vocab, r.vocab) && r.merges == t.merges
      && (forall u :: u in t.inverse ==> u in r.inverse && r.inverse[u] == t.inverse[u])
      && (forall s :: s in specials ==> s in r.inverse)
      && (forall k :: k in r.vocab && k !in t.vocab ==> r.vocab[k] in specials)
    decreases |specials|
  {
    if specials != [] {
      var next := if specials[0] in t.inverse then t else AddEntry(t, specials[0]);
      if specials[0] !in t.inverse {
        AddEntryKeeps(t, specials[0]);
      }
      AddSpecialsKeeps(next, specials[1..]);
      var r := AddSpecials(t, specials);
      assert r == AddSpecials(next, specials[1..]);
      forall s | s in specials
        ensures s in r.inverse
      {
        if s != specials[0] {
          assert s in specials[1..];
        }
      }
      forall k | k in r.vocab && k !in t.vocab
        ensures r.vocab[k] in specials
      {
        if k !in next.vocab {
          assert r.vocab[k] in specials[1..];
        }
      }
    }
  }

  /** One turn of the specials loop: a present special is skipped, a missing one added. */
  lemma AddSpecialsStep(t: Tables, specials: seq<string>)
    requires specials != []
    ensures specials[0] in t.inverse ==>
      && AddSpecials(t, specials) == AddSpecials(t, specials[1..])
      && Missing(t.inverse.Keys, specials) == Missing(t.inverse.Keys, specials[1..])
    ensures specials[0] !in t.inverse ==>
      && AddSpecials(t, specials) == AddSpecials(AddEntry(t, specials[0]), specials[1..])
      && Missing(t.inverse.Keys, specials)
        == [specials[0]] + Missing(AddEntry(t, specials[0]).inverse.Keys, specials[1..])
  {
    if specials[0] !in t.inverse {
      AddSpecialsAdds(t, specials);
    }
  }

  /** A turn of the specials loop on a missing special: it is added and counted as missing. */
  lemma AddSpecialsAdds(t: Tables, specials: seq<string>)
    requires specials != [] && specials[0] !in t.inverse
    ensures AddSpecials(t, specials) == AddSpecials(AddEntry(t, specials[0]), specials[1..])
    ensures Missing(t.inverse.Keys, specials)
      == [specials[0]] + Missing(AddEntry(t, specials[0]).inverse.Keys, specials[1..])
  {
    MissingAdds(t, specials[0], specials[1..]);
    assert specials == [specials[0]] + specials[1..];
  }

  /** A missing string is added to the keys the rest of the loop sees. */
  lemma MissingAdds(t: Tables, s: string, rest: seq<string>)
    requires s !in t.inverse
    ensures Missing(t.inverse.Keys, [s] + rest) == [s] + Missing(AddEntry(t, s).inverse.Keys, rest)
  {
    assert AddEntry(t, s).inverse.Keys == t.inverse.Keys + {s};
    assert ([s] + rest)[1..] == rest;
  }

  /** The specials loop never changes the id of a string already looked up. */
  lemma {:induction false} AddSpecialsKeepsId(t: Tables, specials: seq<string>, u: string)
    requires u in t.inverse
    ensures u in AddSpecials(t, specials).inverse && AddSpecials(t, specials).inverse[u] == t.inverse[u]
    decreases |specials|
  {
    if specials != [] {
      var next := if specials[0] in t.inverse then t else AddEntry(t, specials[0]);
      AddSpecialsKeepsId(next, specials[1..], u);
    }
  }

  /** `vocab` with the strings of `added` stored under the next ids, one by one. */
  function Extended(vocab: map<int, string>, added: seq<string>): map<int, string>
    decreases |added|
  {
    if added == [] then vocab else Extended(vocab[|vocab| := added[0]], added[1..])
  }

  /** The vocabulary the specials loop leaves is the old one extended by the missing specials. */
  lemma {:induction false} AddSpecialsVocab(t: Tables, specials: seq<string>)
    ensures AddSpecials(t, specials).vocab == Extended(t.vocab, Missing(t.inverse.Keys, specials))
    decreases |specials|
  {
    if specials != [] {
      AddSpecialsStep(t, specials);
      if specials[0] in t.inverse {
        AddSpecialsVocab(t, specials[1..]);
      } else {
        var next := AddEntry(t, specials[0]);
        AddSpecialsVocab(next, specials[1..]);
        var added := Missing(t.inverse.Keys, specials);
        assert added[1..] == Missing(next.inverse.Keys, specials[1..]);
      }
    }
  }

  /**
   * Extending contiguous ids: the `k`-th added string is stored under
   * `|vocab| + k`, and the size grows by the number of strings.
   */
  lemma {:induction false} ExtendedLayout(vocab: map<int, string>, added: seq<string>)
    requires Contiguous(vocab)
    ensures |Extended(vocab, added)| == |vocab| + |added|
    ensures forall id :: |vocab| <= id < |vocab| + |added| ==>
      id in Extended(vocab, added) && Extended(vocab, added)[id] == added[id - |vocab|]
    decreases |added|
  {
    if added != [] {
      var next := vocab[|vocab| := added[0]];
      var rest := added[1..];
      var e := Extended(next, rest);
      assert Extended(vocab, added) == e;
      assert |vocab| !in vocab;
      assert |next| == |vocab| + 1;
      assert Contiguous(next);
      ExtendedLayout(next, rest);
      ExtendedKeeps(next, rest, |vocab|);
      forall id | |vocab| <= id < |vocab| + |added|
        ensures id in e && e[id] == added[id - |vocab|]
      {
        if id > |vocab| {
          assert id - |next| == id - |vocab| - 1;
          assert rest[id - |next|] == added[id - |vocab|];
        }
      }
    }
  }

  /** Extending contiguous ids keeps every entry there was. */
  lemma {:induction false} ExtendedKeeps(vocab: map<int, string>, added: seq<string>, id: int)
    requires Contiguous(vocab)
    requires id in vocab
    ensures id in Extended(vocab, added) && Extended(vocab, added)[id] == vocab[id]
    decreases |added|
  {
    if added != [] {
      var next := vocab[|vocab| := added[0]];
      assert |vocab| !in vocab;
      assert |next| == |vocab| + 1;
      assert Contiguous(next);
      ExtendedKeeps(next, added[1..], id);
    }
  }

  /** The `k`-th missing special is looked up under `len(vocab) + k`. */
  lemma {:induction false} AddSpecialsIdAt(t: Tables, specials: seq<string>, k: nat)
    requires Contiguous(t.vocab) && k < |Missing(t.inverse.Keys, specials)|
    ensures var r := AddSpecials(t, specials);
      var added := Missing(t.inverse.Keys, specials);
      added[k] in r.inverse && r.inverse[added[k]] == |t.vocab| + k
    decreases |specials|, 1
  {
    AddSpecialsStep(t, specials);
    if specials[0] in t.inverse {
      AddSpecialsIdAt(t, specials[1..], k);
    } else {
      AddSpecialsIdAtAdded(t, specials, k);
    }
  }

  /** `AddSpecialsIdAt` when the first special is missing and so takes the id `len(vocab)`. */
  lemma {:induction false} AddSpecialsIdAtAdded(t: Tables, specials: seq<string>, k: nat)
    requires Contiguous(t.vocab) && specials != [] && specials[0] !in t.inverse
    requires k < |Missing(t.inverse.Keys, specials)|
    ensures var r := AddSpecials(t, specials);
      var added := Missing(t.inverse.Keys, specials);
      added[k] in r.inverse && r.inverse[added[k]] == |t.vocab| + k
    decreases |specials|, 0
  {
    var s := specials[0];
    var rest := specials[1..];
    var next := AddEntry(t, s);
    var r := AddSpecials(next, rest);
    assert AddSpecials(t, specials) == r;
    var later := Missing(next.inverse.Keys, rest);
    var added := [s] + later;
    assert Missing(t.inverse.Keys, specials) == added by {
      MissingAdds(t, s, rest);
      assert specials == [s] + rest;
    }
    if k == 0 {
      AddSpecialsKeepsId(next, rest, s);
      assert next.inverse[s] == |t.vocab|;
      assert added[0] == s;
    } else {
      assert added[k] == later[k - 1];
      assert |next.vocab| == |t.vocab| + 1;
      AddSpecialsIdAt(next, rest, k - 1);
      assert r.inverse[later[k - 1]] == |next.vocab| + (k - 1);
    }
  }

  /**
   * The specials loop adds exactly the missing specials, one entry each, in
   * order from the id `len(vocab)`, each looked up under its new id; a
   * special already present adds nothing.
   */
  lemma AddSpecialsLayout(t: Tables, specials: seq<string>)
    requires Contiguous(t.vocab)
    ensures |AddSpecials(t, specials).vocab| == |t.vocab| + |Missing(t.inverse.Keys, specials)|
    ensures var r := AddSpecials(t, specials);
      var added := Missing(t.inverse.Keys, specials);
      forall id :: |t.vocab| <= id < |t.vocab| + |added| ==> id in r.vocab && r.vocab[id] == added[id - |t.vocab|]
    ensures var r := AddSpecials(t, specials);
      var added := Missing(t.inverse.Keys, specials);
      forall k :: 0 <= k < |added| ==> added[k] in r.inverse && r.inverse[added[k]] == |t.vocab| + k
  {
    var r := AddSpecials(t, specials);
    var added := Missing(t.inverse.Keys, specials);
    AddSpecialsVocab(t, specials);
    ExtendedLayout(t.vocab, added);
    forall k | 0 <= k < |added|
      ensures added[k] in r.inverse && r.inverse[added[k]] == |t.vocab| + k
    {
      AddSpecialsIdAt(t, specials, k);
    }
  }

  /** The strings `chr(0)` .. `chr(255)`. */
  predicate IsByteString(s: string)
  {
    |s| == 1 && s[0] as int < 256
  }

  /**
   * The seed: `vocab[i] == chr(i)` below 256, `Ġ` at 256, then the specials;
   * ids contiguous, the maps inverse to each other, every special present,
   * every byte string under its own code point, and the old merges kept.
   */
  lemma SeedState(specials: seq<string>, merges: map<Pair, int>)
    ensures var t := Seed(specials, merges);
      && Inverts(t.vocab, t.inverse) && Contiguous(t.vocab) && |t.vocab| >= 257
      && (forall i :: 0 <= i < 256 ==> t.vocab[i] == ByteString(i))
      && t.vocab[256] == [Marker] && [Marker] in t.inverse && t.inverse[[Marker]] == 256
      && (forall s :: IsByteString(s) ==> s in t.inverse && t.inverse[s] == s[0] as int)
      && (forall s :: s in specials ==> s in t.inverse)
      && (forall k :: 257 <= k < |t.vocab| ==> t.vocab[k] in specials)
      && t.merges == merges
  {
    var base := Tables(ByteVocab(256), ByteInverse(256), merges);
    var marked := AddEntry(base, [Marker]);
    MarkedBase(merges);
    AddSpecialsKeeps(marked, specials);
    var t := Seed(specials, merges);
    assert t == AddSpecials(marked, specials);
  }

  /**
   * The size and layout of the seed: 257 entries for the bytes and the
   * marker, then one entry per missing special, in order, each looked up
   * under its id (and, the maps being inverse, stored under it).
   */
  lemma SeedLayout(specials: seq<string>, merges: map<Pair, int>)
    ensures var t := Seed(specials, merges);
      var added := Missing(ByteInverse(256).Keys + {[Marker]}, specials);
      && |t.vocab| == 257 + |added|
      && (forall k :: 0 <= k < |added| ==> added[k] in t.inverse && t.inverse[added[k]] == 257 + k)
  {
    var marked := SeedMarked(specials, merges);
    AddSpecialsLayout(marked, specials);
  }

  /** The seed is the specials loop run on the byte strings and the marker. */
  lemma SeedMarked(specials: seq<string>, merges: map<Pair, int>) returns (marked: Tables)
    ensures Contiguous(marked.vocab) && |marked.vocab| == 257
    ensures marked.inverse.Keys == ByteInverse(256).Keys + {[Marker]}
    ensures Seed(specials, merges) == AddSpecials(marked, specials)
  {
    var base := Tables(ByteVocab(256), ByteInverse(256), merges);
    marked := AddEntry(base, [Marker]);
    assert Contiguous(marked.vocab) && |marked.vocab| == 257 && [Marker] !in base.inverse by {
      MarkedBase(merges);
    }
  }

  /** A special that is a byte string adds no entry. */
  lemma SeedByteSpecialExample()
    ensures |Seed(["a"], map[]).vocab| == 257
  {
    ByteInverseFacts(256);
    SeedLayout(["a"], map[]);
    assert "a" in ByteInverse(256).Keys;
    assert Missing(ByteInverse(256).Keys + {[Marker]}, ["a"]) == [];
  }

  /** A new special adds one entry, under 257, and a repeat of it adds none. */
  lemma SeedRepeatedSpecialExample()
    ensures var t := Seed(["<|endoftext|>", "<|endoftext|>"], map[]);
      && |t.vocab| == 258 && "<|endoftext|>" in t.inverse && t.inverse["<|endoftext|>"] == 257
  {
    var present := ByteInverse(256).Keys + {[Marker]};
    ByteInverseFacts(256);
    SeedLayout(["<|endoftext|>", "<|endoftext|>"], map[]);
    assert "<|endoftext|>" !in present;
    assert Missing(present, ["<|endoftext|>", "<|endoftext|>"]) == ["<|endoftext|>"];
  }

  /** One new special in a fresh seed: it is the 258th entry, under 257. */
  lemma SeedEndOfText()
    ensures var t := Seed(["<|endoftext|>"], map[]);
      && |t.vocab| == 258 && "<|endoftext|>" in t.inverse && t.inverse["<|endoftext|>"] == 257
  {
    var present := ByteInverse(256).Keys + {[Marker]};
    ByteInverseFacts(256);
    SeedLayout(["<|endoftext|>"], map[]);
    assert "<|endoftext|>" !in present;
    assert Missing(present, ["<|endoftext|>"]) == ["<|endoftext|>"];
  }

  /** The 256 byte strings and the marker after them. */
  lemma MarkedBase(merges: map<Pair, int>)
    ensures var base := Tables(ByteVocab(256), ByteInverse(256), merges);
      && [Marker] !in base.inverse
      && var marked := AddEntry(base, [Marker]);
      && Inverts(marked.vocab, marked.inverse) && Contiguous(marked.vocab) && |marked.vocab| == 257
      && (forall i :: 0 <= i < 256 ==> marked.vocab[i] == ByteString(i))
      && marked.vocab[256] == [Marker] && marked.inverse[[Marker]] == 256
      && (forall s :: IsByteString(s) ==> s in marked.inverse && marked.inverse[s] == s[0] as int)
      && marked.merges == merges
  {
    var base := Tables(ByteVocab(256), ByteInverse(256), merges);
    ByteVocabSize(256);
    ByteInverseFacts(256);
    assert Inverts(base.vocab, base.inverse) by {
      forall s | s in base.inverse
        ensures base.inverse[s] in base.vocab && base.vocab[base.inverse[s]] == s
      {
        assert s == ByteString(s[0] as int);
      }
    }
    AddEntryKeeps(base, [Marker]);
  }

  /** Fresh tables from the seed: the merge rules spell their ids. */
  lemma FreshSeedCoherent(specials: seq<string>)
    ensures Coherent(Seed(specials, map[]))
  {
    SeedState(specials, map[]);
  }

  // ---------------------------------------------------------------------
  // Training
  // ---------------------------------------------------------------------

  /**
   * `train(text, vocab_size, allowed_special)`: the outcome and the tables
   * afterwards. A character of the preprocessed text with no id raises
   * `KeyError` after the vocabulary has been rebuilt.
   */
  function TrainSpec(text: string, size: int, specials: seq<string>, merges: map<Pair, int>): (r: (Outcome, Tables))
    ensures r.0.Fail? ==> r.0.error == UnknownCharacter && r.1 == Seed(specials, merges)
    ensures r.0.Pass? <==> AllCharsKnown(Seed(specials, merges).inverse, Preprocessed(text))
  {
    var seed := Seed(specials, merges);
    var processed := Preprocessed(text);
    if !AllCharsKnown(seed.inverse, processed) then (Fail(UnknownCharacter), seed)
    else
      SeedState(specials, merges);
      CharIdsSpell(seed.vocab, seed.inverse, processed);
      (Pass, MergeLoop(seed, CharIds(seed.inverse, processed), size).0)
  }

  /**
   * Training accepts any text of characters below 256 and markers: every
   * such character, and the marker every inner space becomes, has an id.
   */
  lemma TrainAcceptsByteText(text: string, size: int, specials: seq<string>, merges: map<Pair, int>)
    requires forall i :: 0 <= i < |text| ==> text[i] as int < 256 || text[i] == Marker
    ensures TrainSpec(text, size, specials, merges).0 == Pass
  {
    var seed := Seed(specials, merges);
    SeedState(specials, merges);
    var p := Preprocessed(text);
    forall i | 0 <= i < |p|
      ensures [p[i]] in seed.inverse
    {
      assert p[i] == Marker || p[i] in text;
      if p[i] != Marker {
        assert IsByteString([p[i]]);
      }
    }
  }

  /**
   * The tables after a successful training of a fresh tokenizer: the seed
   * is kept, the ids are contiguous, the maps agree, each learned merge adds
   * one vocabulary entry, the requested size is not exceeded unless the seed
   * already does, and the loop stopped for one of its two reasons.
   */
  lemma TrainedState(text: string, size: int, specials: seq<string>)
    requires TrainSpec(text, size, specials, map[]).0 == Pass
    ensures var t := TrainSpec(text, size, specials, map[]).1;
      var seed := Seed(specials, map[]);
      && Coherent(t) && Contiguous(t.vocab)
      && VocabExtends(seed.vocab, t.vocab)
      && (forall i :: 0 <= i < 256 ==> i in t.vocab && t.vocab[i] == ByteString(i))
      && 256 in t.vocab && t.vocab[256] == [Marker]
      && (forall s :: s in specials ==> s in t.inverse && t.inverse[s] in t.vocab && t.vocab[t.inverse[s]] == s)
      && |t.vocab| == |seed.vocab| + |t.merges|
      && (|seed.vocab| <= size ==> |t.vocab| <= size)
  {
    var seed := Seed(specials, map[]);
    SeedState(specials, map[]);
    FreshSeedCoherent(specials);
    var p := Preprocessed(text);
    CharIdsSpell(seed.vocab, seed.inverse, p);
    var ids := CharIds(seed.inverse, p);
    var t := MergeLoop(seed, ids, size).0;
    assert TrainSpec(text, size, specials, map[]).1 == t;
    MergeLoopFromFresh(seed, ids, size);
  }

  /** The byte ids of a string of characters below 256. */
  lemma ByteIds(t: Tables, s: string)
    requires forall u :: IsByteString(u) ==> u in t.inverse && t.inverse[u] == u[0] as int
    requires forall i :: 0 <= i < |s| ==> s[i] as int < 256
    ensures AllCharsKnown(t.inverse, s)
    ensures forall i :: 0 <= i < |s| ==> CharIds(t.inverse, s)[i] == s[i] as int
  {
    assert forall i :: 0 <= i < |s| ==> IsByteString([s[i]]);
  }

  /** The seed without specials: the 256 byte strings and the marker, no rules. */
  lemma PlainSeed()
    ensures var seed := Seed([], map[]);
      && |seed.vocab| == 257 && Contiguous(seed.vocab) && Inverts(seed.vocab, seed.inverse)
      && seed.merges == map[] && MaxKey(seed.vocab) == 256
      && (forall i :: 0 <= i < 256 ==> i in seed.vocab && seed.vocab[i] == ByteString(i))
      && (forall u :: IsByteString(u) ==> u in seed.inverse && seed.inverse[u] == u[0] as int)
  {
    var seed := Seed([], map[]);
    SeedState([], map[]);
    assert 257 !in seed.vocab;
    ContiguousMax(seed.vocab);
  }

  /**
   * Training a fresh tokenizer on a text of characters below 256 without
   * spaces succeeds and runs the merge loop on the code points of the text.
   */
  lemma TrainPlainText(text: string, size: int)
    requires forall i :: 0 <= i < |text| ==> text[i] as int < 256 && text[i] != ' '
    ensures var seed := Seed([], map[]);
      && AllCharsKnown(seed.inverse, text) && Known(seed.vocab, CharIds(seed.inverse, text))
      && TrainSpec(text, size, [], map[]) == (Pass, MergeLoop(seed, CharIds(seed.inverse, text), size).0)
  {
    SeedTextIds([], text);
  }

  /** "ababab" trained to 258 learns exactly the rule (97, 98) -> 257, spelling "ab". */
  lemma TrainExampleRepeated()
    ensures var t := TrainSpec("ababab", 258, [], map[]);
      && t.0 == Pass && t.1.merges == map[(97, 98) := 257] && |t.1.vocab| == 258
      && 257 in t.1.vocab && t.1.vocab[257] == "ab"
      && "ab" in t.1.inverse && t.1.inverse["ab"] == 257
  {
    var seed := Seed([], map[]);
    TrainPlainText("ababab", 258);
    AbabIds();
    PlainSeed();
    assert seed.vocab[97] == ByteString(97) && seed.vocab[98] == ByteString(98);
    LearnAb(seed, CharIds(seed.inverse, "ababab"));
  }

  /** Over the plain seed, the ids of "ababab" are its code points 97 98 97 98 97 98. */
  lemma AbabIds()
    ensures var seed := Seed([], map[]);
      AllCharsKnown(seed.inverse, "ababab") && CharIds(seed.inverse, "ababab") == [97, 98, 97, 98, 97, 98]
  {
    var text := "ababab";
    assert forall i :: 0 <= i < |text| ==> text[i] as int < 256 && text[i] != ' ';
    SeedTextIds([], text);
  }

  /**
   * From 257 entries with 'a' under 97 and 'b' under 98 and no rules, the
   * loop over 97 98 97 98 97 98 learns (97, 98) -> 257 and stops at 258.
   */
  lemma LearnAb(seed: Tables, ids: seq<int>)
    requires |seed.vocab| == 257 && seed.merges == map[] && MaxKey(seed.vocab) == 256
    requires 97 in seed.vocab && 98 in seed.vocab && seed.vocab[97] == "a" && seed.vocab[98] == "b"
    requires ids == [97, 98, 97, 98, 97, 98]
    ensures Known(seed.vocab, ids)
    ensures var t := MergeLoop(seed, ids, 258).0;
      && t.merges == map[(97, 98) := 257] && |t.vocab| == 258
      && 257 in t.vocab && t.vocab[257] == "ab"
      && "ab" in t.inverse && t.inverse["ab"] == 257
  {
    ByteExampleFreqPair();
    var next := Learn(seed, (97, 98));
    var swept := Sweep(ids, map[(97, 98) := 257]);
    MergeLoopStep(seed, ids, 258, (97, 98), 257, next, swept);
  }

  /** "abcde" has no repeated pair: training learns nothing and keeps the 257 seed entries. */
  lemma TrainExampleDistinct()
    ensures var t := TrainSpec("abcde", 262, [], map[]);
      t.0 == Pass && t.1.merges == map[] && |t.1.vocab| == 257
  {
    AbcdeIds();
    ByteExampleNoPair();
    PlainSeed();
  }

  /** Over the plain seed, the ids of "abcde" are its code points. */
  lemma AbcdeIds()
    ensures var seed := Seed([], map[]);
      && Preprocessed("abcde") == "abcde" && AllCharsKnown(seed.inverse, "abcde")
      && CharIds(seed.inverse, "abcde") == [97, 98, 99, 100, 101]
      && Known(seed.vocab, [97, 98, 99, 100, 101])
  {
    var text := "abcde";
    assert forall i :: 0 <= i < |text| ==> text[i] as int < 256 && text[i] != ' ';
    SeedTextIds([], text);
  }

  /** The empty text learns nothing. */
  lemma TrainExampleEmpty()
    ensures var t := TrainSpec("", 300, [], map[]);
      t.0 == Pass && t.1.merges == map[] && |t.1.vocab| == 257
  {
    var seed := Seed([], map[]);
    PlainSeed();
    assert Preprocessed("") == "";
    assert CharIds(seed.inverse, "") == [];
    MergeLoopOnDistinctIds(seed, [], 300);
  }

  /**
   * "hello", whatever the specials: training to 300 learns nothing and
   * leaves the seed.
   */
  lemma TrainHello(specials: seq<string>)
    ensures TrainSpec("hello", 300, specials, map[]) == (Pass, Seed(specials, map[]))
  {
    var seed := Seed(specials, map[]);
    HelloIds(specials);
    HelloNoPair();
  }

  /** Over any seed, the ids of "hello" are its code points. */
  lemma HelloIds(specials: seq<string>)
    ensures var seed := Seed(specials, map[]);
      && Preprocessed("hello") == "hello" && AllCharsKnown(seed.inverse, "hello")
      && CharIds(seed.inverse, "hello") == [104, 101, 108, 108, 111]
      && Known(seed.vocab, [104, 101, 108, 108, 111])
  {
    var text := "hello";
    assert forall i :: 0 <= i < |text| ==> text[i] as int < 256 && text[i] != ' ';
    SeedTextIds(specials, text);
  }

  /**
   * Over any seed, a text of characters below 256 without spaces is left
   * alone by the preprocessing, and its ids are its code points.
   */
  lemma SeedTextIds(specials: seq<string>, text: string)
    requires forall i :: 0 <= i < |text| ==> text[i] as int < 256 && text[i] != ' '
    ensures var seed := Seed(specials, map[]);
      && Preprocessed(text) == text && AllCharsKnown(seed.inverse, text)
      && Known(seed.vocab, CharIds(seed.inverse, text))
      && forall i :: 0 <= i < |text| ==> CharIds(seed.inverse, text)[i] == text[i] as int
  {
    var seed := Seed(specials, map[]);
    SeedState(specials, map[]);
    assert Marker as int == 288;
    PlainTextSurvivesMarking(text);
    ByteIds(seed, text);
    CharIdsSpell(seed.vocab, seed.inverse, text);
  }

  /** The ids of "hello" repeat no pair, though they repeat an id. */
  lemma HelloNoPair()
    ensures FindFreqPair([104, 101, 108, 108, 111]) == None
  {
    var ids := [104, 101, 108, 108, 111];
    assert ids[1..] == [101, 108, 108, 111];
    assert ids[1..][1..] == [108, 108, 111];
    assert ids[1..][1..][1..] == [108, 111];
    assert ids[1..][1..][1..][1..] == [111];
    forall q
      ensures Count(ids, q) <= 1
    {
      assert Count([111], q) == 0;
      assert Count([108, 111], q) == if q == (108, 111) then 1 else 0;
      assert Count([108, 108, 111], q) == if q == (108, 108) || q == (108, 111) then 1 else 0;
      assert Count([101, 108, 108, 111], q) == if q == (101, 108) || q == (108, 108) || q == (108, 111) then 1 else 0;
    }
  }

  /** The ids of "abcde" are all different: no pair repeats. */
  lemma ByteExampleNoPair()
    ensures FindFreqPair([97, 98, 99, 100, 101]) == None
  {
    var ids := [97, 98, 99, 100, 101];
    assert ids[1..] == [98, 99, 100, 101];
    assert ids[1..][1..] == [99, 100, 101];
    assert ids[1..][1..][1..] == [100, 101];
    assert ids[1..][1..][1..][1..] == [101];
    forall q
      ensures Count(ids, q) <= 1
    {
      assert Count([101], q) == 0;
      assert Count([100, 101], q) == if q == (100, 101) then 1 else 0;
      assert Count([99, 100, 101], q) == if q == (99, 100) || q == (100, 101) then 1 else 0;
      assert Count([98, 99, 100, 101], q) == if q == (98, 99) || q == (99, 100) || q == (100, 101) then 1 else 0;
    }
  }

  /** The most frequent pair of the ids of "ababab". */
  lemma ByteExampleFreqPair()
    ensures FindFreqPair([97, 98, 97, 98, 97, 98]) == Some((97, 98))
  {
    var s := [97, 98, 97, 98, 97, 98];
    assert s[1..] == [98, 97, 98, 97, 98];
    assert s[1..][1..] == [97, 98, 97, 98];
    assert s[1..][1..][1..] == [98, 97, 98];
    assert s[1..][1..][1..][1..] == [97, 98];
    assert s[1..][1..][1..][1..][1..] == [98];
  }
}

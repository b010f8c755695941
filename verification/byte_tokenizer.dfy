/**
 * The byte-level `BPETokenizer` object: its three dictionaries are fields
 * that `train` rebuilds in place and `encode` reads. Each method is proved
 * to leave the state, or to return the result, that the functions of
 * `ByteLevel` and `ByteEncoding` describe.
 */
module ByteTokenizer {
  import opened Tokens
  import opened PairCounts
  import opened Merging
  import opened Text
  import opened Training
  import opened Segmentation
  import opened ByteLevel
  import opened ByteEncoding

  class BPETokenizer {
    var vocab: map<int, string>
    var inverseVocab: map<string, int>
    var bpeMerges: map<Pair, int>

    /** The three dictionaries as one value. */
    function State(): Tables
      reads this
    {
      Tables(vocab, inverseVocab, bpeMerges)
    }

    /** A new tokenizer has no vocabulary and no merge rules. */
    constructor()
      ensures State() == Tables(map[], map[], map[])
    {
      vocab := map[];
      inverseVocab := map[];
      bpeMerges := map[];
    }

    /**
     * `train(text, vocab_size, allowed_special)`: rebuilds the vocabulary
     * from the 256 byte strings, the marker and the specials, keeps the
     * merge rules it already had, and runs the merge loop; the outcome and
     * the new state are those of `TrainSpec`.
     */
    method Train(text: string, vocabSize: int, allowedSpecial: seq<string>) returns (outcome: Outcome)
      modifies this
      ensures (outcome, State()) == TrainSpec(text, vocabSize, allowedSpecial, old(bpeMerges))
    {
      var processed := PreprocessSpaces(text);
      SeedVocabulary(allowedSpecial);
      var lookedUp := LookupChars(inverseVocab, processed);
      if lookedUp.Err? {
        return Fail(UnknownCharacter);
      }
      SeedState(allowedSpecial, old(bpeMerges));
      CharIdsSpell(vocab, inverseVocab, processed);
      LearnMerges(lookedUp.value, vocabSize);
      return Pass;
    }

    /**
     * The first part of `train`: the byte vocabulary, the marker when it is
     * missing, and each allowed special not yet present, under the next id.
     */
    method SeedVocabulary(allowedSpecial: seq<string>)
      modifies this
      ensures State() == Seed(allowedSpecial, old(bpeMerges))
    {
      vocab := ByteVocab(256);
      inverseVocab := ByteInverse(256);
      if [Marker] !in inverseVocab {
        var newId := |vocab|;
        vocab := vocab[newId := [Marker]];
        inverseVocab := inverseVocab[[Marker] := newId];
      }
      ghost var marked := State();
      for i := 0 to |allowedSpecial|
        invariant bpeMerges == old(bpeMerges)
        invariant AddSpecials(State(), allowedSpecial[i..]) == AddSpecials(marked, allowedSpecial)
      {
        var special := allowedSpecial[i];
        if special !in inverseVocab {
          var newId := |vocab|;
          vocab := vocab[newId := special];
          inverseVocab := inverseVocab[special := newId];
        }
        assert allowedSpecial[i..][1..] == allowedSpecial[i + 1..];
      }
      assert allowedSpecial[|allowedSpecial|..] == [];
    }

    /**
     * The `while len(self.vocab) < vocab_size` loop of `train`: the state it
     * stops with is the one `MergeLoop` describes.
     */
    method LearnMerges(ids: seq<int>, vocabSize: int)
      requires Known(vocab, ids)
      modifies this
      ensures State() == MergeLoop(old(State()), ids, vocabSize).0
    {
      var tokenIds := ids;
      while |vocab| < vocabSize
        invariant Known(vocab, tokenIds)
        invariant MergeLoop(State(), tokenIds, vocabSize) == MergeLoop(old(State()), ids, vocabSize)
        decreases vocabSize - |vocab|
      {
        var pair := FindFreqPair(tokenIds);
        if pair.None? {
          break;
        }
        var p := pair.value;
        FoundPairIsKnown(vocab, tokenIds);
        ghost var before := State();
        var pairId := MaxKey(vocab) + 1;
        AddMerge(p, pairId);
        var next := ReplacePair(tokenIds, p, pairId);
        MergeLoopStep(before, tokenIds, vocabSize, p, pairId, State(), next);
        tokenIds := next;
      }
    }

    /**
     * The body of one merge: the pair's rule under the id `max(vocab) + 1`,
     * and that id spelled as the pair's two strings joined, in both maps.
     */
    method AddMerge(p: Pair, pairId: int)
      requires vocab != map[] && p.0 in vocab && p.1 in vocab && pairId == MaxKey(vocab) + 1
      modifies this
      ensures State() == Learn(old(State()), p)
    {
      bpeMerges := bpeMerges[p := pairId];
      var mergedToken := vocab[p.0] + vocab[p.1];
      vocab := vocab[pairId := mergedToken];
      inverseVocab := inverseVocab[mergedToken := pairId];
    }

    /**
     * Encoding of ordinary text: the disallowed-special scan, the space
     * preprocessing, the lookups and `apply_merges`.
     */
    method EncodeOrdinaryText(segment: string, allowed: seq<string>) returns (r: Result<seq<int>>)
      ensures r == EncodeOrdinary(State(), segment, allowed)
    {
      var disallowed := FindDisallowed(inverseVocab, segment, allowed);
      if disallowed {
        return Err(DisallowedSpecial);
      }
      var processed := PreprocessSpaces(segment);
      var lookedUp := LookupChars(inverseVocab, processed);
      if lookedUp.Err? {
        return Err(UnknownCharacter);
      }
      var merged := ApplyMerges(lookedUp.value, bpeMerges);
      return Ok(merged);
    }

    /**
     * `encode(text, allowed_specials)`: the result `Encode` describes, from
     * the tokenizer's current state.
     */
    method Encode(text: string, allowedSpecials: seq<string>) returns (r: Result<seq<int>>)
      ensures r == ByteEncoding.Encode(State(), text, allowedSpecials)
    {
      if |vocab| == 0 {
        return Err(NotTrained);
      }
      if |text| == 0 {
        return Ok([]);
      }
      if |allowedSpecials| > 0 {
        for k := 0 to |allowedSpecials|
          invariant forall j :: 0 <= j < k ==> allowedSpecials[j] in inverseVocab
        {
          if allowedSpecials[k] !in inverseVocab {
            return Err(UnknownSpecial);
          }
        }
        assert SpecialsKnown(State(), allowedSpecials);
        if text in allowedSpecials {
          return Ok([inverseVocab[text]]);
        }
        var segments := SplitSegments(text, allowedSpecials);
        var result := [];
        assert segments[0..] == segments;
        ghost var whole := EncodeSegments(State(), segments, allowedSpecials);
        assert whole.Ok? ==> [] + whole.value == whole.value;
        for i := 0 to |segments|
          invariant Prepend(result, EncodeSegments(State(), segments[i..], allowedSpecials))
            == EncodeSegments(State(), segments, allowedSpecials)
        {
          var segment := segments[i];
          assert segments[i..][1..] == segments[i + 1..];
          var ids: Result<seq<int>>;
          if segment in allowedSpecials {
            ids := Ok([inverseVocab[segment]]);
          } else {
            ids := EncodeOrdinaryText(segment, allowedSpecials);
            if ids.Err? {
              return ids;
            }
          }
          ghost var rest := EncodeSegments(State(), segments[i + 1..], allowedSpecials);
          if rest.Ok? {
            AppendAssoc(result, ids.value, rest.value);
          }
          result := result + ids.value;
        }
        assert segments[|segments|..] == [] && result + [] == result;
        return Ok(result);
      }
      r := EncodeOrdinaryText(text, []);
    }
  }

  /**
   * Ordinary text of characters below 256 without spaces or "<": over
   * tables that give each byte string its code point and hold no rules, the
   * ids are the code points.
   */
  lemma EncodeHello(t: Tables, allowed: seq<string>)
    requires forall u :: IsByteString(u) ==> u in t.inverse && t.inverse[u] == u[0] as int
    requires t.merges == map[]
    ensures EncodeOrdinary(t, "hello", allowed) == Ok([104, 101, 108, 108, 111])
  {
    var text := "hello";
    forall u | IsSpecialShaped(u)
      ensures !Contains(text, u)
    {
      assert u[0] == '<' by {
        assert u[..2][0] == u[0];
      }
      forall j | 0 <= j
        ensures !IsAt(text, u, j)
      {
        if j + |u| <= |text| {
          assert text[j..j + |u|][0] == text[j];
          assert text[j] != '<';
        }
      }
      ContainsIff(text, u);
    }
    assert Marker as int == 288;
    PlainTextSurvivesMarking(text);
    ByteIds(t, text);
    var ids := CharIds(t.inverse, text);
    assert ids == [104, 101, 108, 108, 111];
    SweepWithoutKeys(ids, t.merges);
  }

  /**
   * "hello" followed by an allowed special, over a fresh seed holding it:
   * the code points of "hello", then the special's id.
   */
  lemma EncodeHelloThenSpecial(specials: seq<string>, sp: string)
    requires sp in specials && IsSpecialShaped(sp)
    ensures var t := Seed(specials, map[]);
      && sp in t.inverse
      && ByteEncoding.Encode(t, "hello" + sp, [sp]) == Ok([104, 101, 108, 108, 111, t.inverse[sp]])
  {
    var t := Seed(specials, map[]);
    var text := "hello" + sp;
    SeedState(specials, map[]);
    assert 0 in t.vocab;
    assert sp[0] == '<' by {
      assert sp[..2][0] == sp[0];
    }
    assert text == "hello" + sp + "";
    NotInsidePlain("hello", sp, "");
    EncodeAroundSpecial(t, text, [sp], "hello", sp, "");
    EncodeHello(t, [sp]);
    EncodeOrdinaryEmpty(t, [sp]);
    assert [104, 101, 108, 108, 111] + [t.inverse[sp]] + [] == [104, 101, 108, 108, 111, t.inverse[sp]];
  }

  /**
   * Training on "hello" with the special "<|endoftext|>" allowed learns
   * nothing; the tokenizer then encodes "hello" followed by the special,
   * with the special allowed, to the code points of "hello" followed by the
   * special's id, 257.
   */
  lemma EncodeMixedExample(sp: string)
    requires sp == "<|endoftext|>"
    ensures var (outcome, t) := TrainSpec("hello", 300, [sp], map[]);
      && outcome == Pass && t == Seed([sp], map[])
      && sp in t.inverse && t.inverse[sp] == 257
      && ByteEncoding.Encode(t, "hello" + sp, [sp]) == Ok([104, 101, 108, 108, 111, 257])
  {
    TrainHello([sp]);
    SeedEndOfText();
    SpecialShapeExamples();
    EncodeHelloThenSpecial([sp], sp);
  }
}

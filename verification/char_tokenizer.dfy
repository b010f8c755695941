/**
 * The character-level `BPETokenizer` object: `train` rebuilds its three
 * dictionaries in place and `encode` reads them. Each method is proved to
 * leave the state, or to return the result, that the functions of
 * `CharLevel` describe.
 */
module CharTokenizer {
  import opened Tokens
  import opened PairCounts
  import opened Merging
  import opened Text
  import opened Training
  import opened CharLevel

  class BPETokenizer {
    var vocab: map<int, string>
    var inverseVocab: map<string, int>
    var bpeMerges: map<Pair, int>

    /** The three dictionaries as one value. */
    function State(): Tables
      reads this
    {
      Tables(vocab, inverseVocab, bpeMerges)
    }

    /** A new tokenizer has no vocabulary and no merge rules. */
    constructor()
      ensures State() == Tables(map[], map[], map[])
    {
      vocab := map[];
      inverseVocab := map[];
      bpeMerges := map[];
    }

    /**
     * `train(text, vocab_size, allowed_special)`: the sorted distinct
     * characters as the first ids, the merge loop over the text's ids with
     * the merge rules already there kept, then the specials; the outcome and
     * the new state are those of `TrainSpec`.
     */
    method Train(text: string, vocabSize: int, allowedSpecial: seq<string>) returns (outcome: Outcome)
      modifies this
      ensures (outcome, State()) == TrainSpec(text, vocabSize, allowedSpecial, old(bpeMerges))
    {
      var uniqueChars := SortedChars(text);
      vocab := CharVocab(uniqueChars);
      inverseVocab := CharInverse(uniqueChars);
      CharSeedInverts(text, bpeMerges);
      var lookedUp := LookupChars(inverseVocab, text);
      CharIdsSpell(vocab, inverseVocab, text);
      LearnMerges(lookedUp.value, vocabSize);
      assert State() == Merged(text, vocabSize, old(bpeMerges));
      outcome := AddSpecials(allowedSpecial);
    }

    /**
     * The `while len(self.vocab) < vocab_size` loop of `train`: the state it
     * stops with is the one `MergeLoop` describes.
     */
    method LearnMerges(ids: seq<int>, vocabSize: int)
      requires Known(vocab, ids)
      modifies this
      ensures State() == MergeLoop(old(State()), ids, vocabSize).0
    {
      var tokenIds := ids;
      while |vocab| < vocabSize
        invariant Known(vocab, tokenIds)
        invariant MergeLoop(State(), tokenIds, vocabSize) == MergeLoop(old(State()), ids, vocabSize)
        decreases vocabSize - |vocab|
      {
        var pair := FindFreqPair(tokenIds);
        if pair.None? {
          break;
        }
        var p := pair.value;
        FoundPairIsKnown(vocab, tokenIds);
        ghost var before := State();
        var pairId := MaxKey(vocab) + 1;
        AddMerge(p, pairId);
        var next := ReplacePair(tokenIds, p, pairId);
        MergeLoopStep(before, tokenIds, vocabSize, p, pairId, State(), next);
        tokenIds := next;
      }
    }

    /**
     * The body of one merge: the pair's rule under the id `max(vocab) + 1`,
     * and that id spelled as the pair's two strings joined, in both maps.
     */
    method AddMerge(p: Pair, pairId: int)
      requires vocab != map[] && p.0 in vocab && p.1 in vocab && pairId == MaxKey(vocab) + 1
      modifies this
      ensures State() == Learn(old(State()), p)
    {
      bpeMerges := bpeMerges[p := pairId];
      vocab := vocab[pairId := vocab[p.0] + vocab[p.1]];
      inverseVocab := inverseVocab[vocab[pairId] := pairId];
    }

    /**
     * The specials loop of `train`: each special under `max(vocab) + 1`,
     * whether or not it already has an id; `max` of an empty vocabulary
     * raises.
     */
    method AddSpecials(allowedSpecial: seq<string>) returns (outcome: Outcome)
      modifies this
      ensures (outcome, State()) == AppendSpecials(old(State()), allowedSpecial)
    {
      for i := 0 to |allowedSpecial|
        invariant AppendSpecials(State(), allowedSpecial[i..]) == AppendSpecials(old(State()), allowedSpecial)
      {
        if vocab == map[] {
          return Fail(MaxOfEmpty);
        }
        var newId := MaxKey(vocab) + 1;
        vocab := vocab[newId := allowedSpecial[i]];
        inverseVocab := inverseVocab[allowedSpecial[i] := newId];
        assert allowedSpecial[i..][1..] == allowedSpecial[i + 1..];
      }
      assert allowedSpecial[|allowedSpecial|..] == [];
      return Pass;
    }

    /**
     * `encode(text, allowed_specials)`: the result `Encode` describes, from
     * the tokenizer's current state.
     */
    method Encode(text: string, allowedSpecials: seq<string>) returns (r: Result<seq<int>>)
      ensures r == CharLevel.Encode(State(), text, allowedSpecials)
    {
      if |vocab| == 0 {
        return Err(NotTrained);
      }
      if |text| == 0 {
        return Ok([]);
      }
      WholePiece(State(), text);
      var pieces: seq<Piece>;
      if |allowedSpecials| > 0 {
        for k := 0 to |allowedSpecials|
          invariant forall j :: 0 <= j < k ==> allowedSpecials[j] in inverseVocab
        {
          if allowedSpecials[k] !in inverseVocab {
            return Err(UnknownSpecial);
          }
        }
        var split := SplitOnSpecials(text, allowedSpecials);
        if split.Err? {
          return Err(split.error);
        }
        pieces := split.value;
      } else {
        pieces := [Piece(text, None)];
      }
      var plain := JoinPlain(pieces);
      var checked := LookupChars(inverseVocab, plain);
      if checked.Err? {
        return Err(UnknownCharacter);
      }
      PlainTextKnown(inverseVocab, pieces);
      var ids := EncodeAll(pieces);
      return Ok(ids);
    }

    /**
     * The deque loop of `encode`: `(text, None)` is queued, and each allowed
     * special pops one entry; the first splits the text on it, and a second
     * finds the deque empty.
     */
    method SplitOnSpecials(text: string, allowed: seq<string>) returns (r: Result<seq<Piece>>)
      requires allowed != [] && SpecialsKnown(State(), allowed)
      ensures r == Pieces(State(), text, allowed)
    {
      var queue := [Piece(text, None)];
      var pieces: seq<Piece> := [];
      while |queue| > 0
        invariant queue == [] || (queue == [Piece(text, None)] && pieces == [])
        invariant queue == [] ==> Pieces(State(), text, allowed) == Ok(pieces)
        decreases |queue|
      {
        for k := 0 to |allowed|
          invariant k <= 1
          invariant k == 0 ==> queue == [Piece(text, None)] && pieces == []
          invariant k > 0 ==> queue == [] && SplitStep(State(), text, allowed[0]) == Ok(pieces)
        {
          if |queue| == 0 {
            return Err(EmptyDequePop);
          }
          var entry := queue[0];
          queue := queue[1..];
          var special := allowed[k];
          if entry.token.None? && Contains(entry.text, special) {
            if special == "" {
              return Err(EmptySeparator);
            }
            var parts := SplitOn(entry.text, special);
            var id := inverseVocab[special];
            if parts == [""] {
              pieces := pieces + [Piece(special, Some(id))];
            } else {
              var added := PiecesOfParts(parts, special, id);
              pieces := pieces + added;
            }
          } else {
            pieces := pieces + [entry];
          }
          assert pieces == SplitStep(State(), text, allowed[0]).value;
        }
      }
      return Ok(pieces);
    }

    /**
     * The `for i, itext in enumerate(left_split)` loop: each non-empty part
     * as ordinary text, and the special between consecutive parts.
     */
    static method PiecesOfParts(parts: seq<string>, special: string, id: int) returns (pieces: seq<Piece>)
      ensures pieces == PiecesFrom(parts, special, id, 0)
    {
      pieces := [];
      for i := 0 to |parts|
        invariant pieces + PiecesFrom(parts, special, id, i) == PiecesFrom(parts, special, id, 0)
      {
        var step := (if parts[i] != "" then [Piece(parts[i], None)] else [])
          + (if i < |parts| - 1 then [Piece(special, Some(id))] else []);
        PiecesFromNext(parts, special, id, i, pieces);
        pieces := pieces + step;
      }
    }

    /** Step 2 of `encode`: the texts of the ordinary pieces, joined. */
    static method JoinPlain(pieces: seq<Piece>) returns (plain: string)
      ensures plain == PlainText(pieces)
    {
      plain := "";
      for i := 0 to |pieces|
        invariant plain + PlainText(pieces[i..]) == PlainText(pieces)
      {
        var part := if pieces[i].token.None? then pieces[i].text else "";
        PlainTextNext(pieces, i, plain);
        plain := plain + part;
      }
      assert pieces[|pieces|..] == [];
    }

    /**
     * Step 3 of `encode`: a special's id as it is, ordinary text looked up
     * character by character and passed through `apply_merges`.
     */
    method EncodeAll(pieces: seq<Piece>) returns (ids: seq<int>)
      requires PiecesKnown(inverseVocab, pieces)
      ensures ids == EncodePieces(State(), pieces)
    {
      ids := [];
      assert pieces[0..] == pieces;
      for i := 0 to |pieces|
        invariant PiecesKnown(inverseVocab, pieces[i..])
        invariant ids + EncodePieces(State(), pieces[i..]) == EncodePieces(State(), pieces)
      {
        assert pieces[i..][1..] == pieces[i + 1..];
        var piece := pieces[i];
        var step: seq<int>;
        if piece.token.Some? {
          step := [piece.token.value];
        } else {
          assert pieces[i..][0] == piece;
          var lookedUp := LookupChars(inverseVocab, piece.text);
          step := ApplyMerges(lookedUp.value, bpeMerges);
        }
        AppendAssoc(ids, step, EncodePieces(State(), pieces[i + 1..]));
        ids := ids + step;
      }
      assert pieces[|pieces|..] == [];
      assert ids + [] == ids;
    }
  }
}

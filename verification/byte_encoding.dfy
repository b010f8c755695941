/**
 * `encode` and `decode` of the byte-level tokenizer, as functions of the
 * three tables. Encoding refuses an untrained tokenizer, maps "" to no ids,
 * checks the allowed specials, gives a text that is itself an allowed
 * special its id, and otherwise encodes the segments in order: a special by
 * its id, ordinary text by the space preprocessing, a lookup per character
 * and one merge sweep. Decoding joins the strings of the ids and writes
 * every marker back as a space.
 */
module ByteEncoding {
  import opened Tokens
  import opened Merging
  import opened Text
  import opened Training
  import opened Segmentation

  /**
   * Ordinary text: refused when a special-shaped vocabulary string that is
   * not allowed occurs in it, otherwise preprocessed, looked up character
   * by character (`KeyError` on a character with no id) and swept once
   * with the merge table.
   */
  function EncodeOrdinary(t: Tables, segment: string, allowed: seq<string>): (r: Result<seq<int>>)
    ensures r.Err? <==> HasDisallowed(t.inverse, segment, allowed) || !AllCharsKnown(t.inverse, Preprocessed(segment))
    ensures r.Err? ==> r.error == (if HasDisallowed(t.inverse, segment, allowed) then DisallowedSpecial else UnknownCharacter)
    ensures r.Ok? ==> |r.value| <= |Preprocessed(segment)|
  {
    if HasDisallowed(t.inverse, segment, allowed) then Err(DisallowedSpecial)
    else
      var processed := Preprocessed(segment);
      if !AllCharsKnown(t.inverse, processed) then Err(UnknownCharacter)
      else Ok(Sweep(CharIds(t.inverse, processed), t.merges))
  }

  /** `ids` put in front of the ids of a successful result; an error passes through. */
  function Prepend(ids: seq<int>, r: Result<seq<int>>): Result<seq<int>>
  {
    if r.Ok? then Ok(ids + r.value) else r
  }

  /**
   * The `for segment in segments` loop: each allowed special becomes its
   * id, each other segment is encoded as ordinary text, the results are
   * concatenated in order, and the first error is raised.
   */
  function EncodeSegments(t: Tables, segs: seq<string>, allowed: seq<string>): (r: Result<seq<int>>)
    requires SpecialsKnown(t, allowed)
    ensures r.Err? ==> exists k :: 0 <= k < |segs| && segs[k] !in allowed && r == EncodeOrdinary(t, segs[k], allowed)
  {
    if segs == [] then Ok([])
    else
      var head := if segs[0] in allowed then Ok([t.inverse[segs[0]]]) else EncodeOrdinary(t, segs[0], allowed);
      if head.Err? then head else Prepend(head.value, EncodeSegments(t, segs[1..], allowed))
  }

  /** `encode(text, allowed_specials)`, with the set of specials in iteration order. */
  function Encode(t: Tables, text: string, allowed: seq<string>): (r: Result<seq<int>>)
    ensures t.vocab == map[] ==> r == Err(NotTrained)
    ensures t.vocab != map[] && text == "" ==> r == Ok([])
    ensures t.vocab != map[] && text != "" && allowed != [] && !SpecialsKnown(t, allowed) ==> r == Err(UnknownSpecial)
    ensures t.vocab != map[] && text != "" && SpecialsKnown(t, allowed) && text in allowed ==> r == Ok([t.inverse[text]])
    ensures t.vocab != map[] && text != "" && allowed == [] ==> r == EncodeOrdinary(t, text, [])
  {
    if |t.vocab| == 0 then Err(NotTrained)
    else if |text| == 0 then Ok([])
    else if |allowed| > 0 then
      if !SpecialsKnown(t, allowed) then Err(UnknownSpecial)
      else if text in allowed then Ok([t.inverse[text]])
      else EncodeSegments(t, Segments(text, allowed, 0), allowed)
    else EncodeOrdinary(t, text, [])
  }

  /**
   * The loop raises at the first ordinary segment that fails: every
   * segment before it is an allowed special or encodes, and the error is
   * that segment's own.
   */
  lemma {:induction false} EncodeSegmentsFirstError(t: Tables, segs: seq<string>, allowed: seq<string>, k: nat)
    requires SpecialsKnown(t, allowed)
    requires k < |segs| && segs[k] !in allowed && EncodeOrdinary(t, segs[k], allowed).Err?
    requires forall j :: 0 <= j < k ==> segs[j] in allowed || EncodeOrdinary(t, segs[j], allowed).Ok?
    ensures EncodeSegments(t, segs, allowed) == EncodeOrdinary(t, segs[k], allowed)
  {
    if k > 0 {
      assert forall j :: 0 <= j < k - 1 ==> segs[1..][j] == segs[j + 1];
      EncodeSegmentsFirstError(t, segs[1..], allowed, k - 1);
    }
  }

  /** The loop succeeds exactly when every ordinary segment encodes. */
  lemma {:induction false} EncodeSegmentsOk(t: Tables, segs: seq<string>, allowed: seq<string>)
    requires SpecialsKnown(t, allowed)
    ensures EncodeSegments(t, segs, allowed).Ok? <==>
      forall j :: 0 <= j < |segs| && segs[j] !in allowed ==> EncodeOrdinary(t, segs[j], allowed).Ok?
  {
    if segs != [] {
      EncodeSegmentsOk(t, segs[1..], allowed);
      assert forall j :: 1 <= j < |segs| ==> segs[j] == segs[1..][j - 1];
    }
  }

  /**
   * `encode` with allowed specials, on a text that is not itself one of
   * them: it is refused with the error of the first segment of the text
   * that is ordinary and fails (a disallowed special or a character with
   * no id), however many specials the text holds.
   */
  lemma EncodeFirstSegmentError(t: Tables, text: string, allowed: seq<string>, k: nat)
    requires t.vocab != map[] && text != "" && allowed != [] && SpecialsKnown(t, allowed) && text !in allowed
    requires var segs := Segments(text, allowed, 0);
      k < |segs| && segs[k] !in allowed && EncodeOrdinary(t, segs[k], allowed).Err?
      && forall j :: 0 <= j < k ==> segs[j] in allowed || EncodeOrdinary(t, segs[j], allowed).Ok?
    ensures Encode(t, text, allowed) == EncodeOrdinary(t, Segments(text, allowed, 0)[k], allowed)
    ensures Encode(t, text, allowed).error ==
      if HasDisallowed(t.inverse, Segments(text, allowed, 0)[k], allowed) then DisallowedSpecial else UnknownCharacter
  {
    EncodeSegmentsFirstError(t, Segments(text, allowed, 0), allowed, k);
  }

  /** The empty ordinary segment encodes to no ids. */
  lemma EncodeOrdinaryEmpty(t: Tables, allowed: seq<string>)
    ensures EncodeOrdinary(t, "", allowed) == Ok([])
  {
    forall u | IsSpecialShaped(u)
      ensures !Contains("", u)
    {
      assert Find("", u, 0) == -1;
    }
    assert Preprocessed("") == "";
  }

  /**
   * Encoding ordinary text `a`, an allowed special `s` and ordinary text
   * `b`, where no allowed special starts inside `a` or `b` and only `s`
   * starts where `s` does: the ids of `a`, then the id of `s`, then the ids
   * of `b`; the first error in that order is raised.
   */
  lemma EncodeAroundSpecial(t: Tables, text: string, allowed: seq<string>, a: string, s: string, b: string)
    requires t.vocab != map[] && SpecialsKnown(t, allowed)
    requires s in allowed && text == a + s + b
    requires forall k, j :: 0 <= k < |allowed| && 0 <= j < |a| ==> !IsAt(text, allowed[k], j)
    requires forall k :: 0 <= k < |allowed| && IsAt(text, allowed[k], |a|) ==> allowed[k] == s
    requires forall k, j :: 0 <= k < |allowed| && |a| + |s| <= j ==> !IsAt(text, allowed[k], j)
    ensures var left := EncodeOrdinary(t, a, allowed);
      var right := EncodeOrdinary(t, b, allowed);
      Encode(t, text, allowed) ==
        if left.Err? then left
        else if right.Err? then right
        else Ok(left.value + [t.inverse[s]] + right.value)
  {
    EncodeOrdinaryEmpty(t, allowed);
    var i :| 0 <= i < |allowed| && allowed[i] == s;
    assert text[|a|..|a| + |s|] == s;
    assert !IsAt(text, allowed[i], |a| + |s|);
    if text in allowed {
      var k :| 0 <= k < |allowed| && allowed[k] == text;
      assert text[0..|text|] == text;
      assert IsAt(text, allowed[k], 0);
      assert a == "";
      assert allowed[k] == s && b == "";
      assert [] + [t.inverse[s]] + [] == [t.inverse[text]];
    } else {
      SegmentsAroundSpecial(text, allowed, a, s, b);
      assert text[0..|a|] == a;
      assert text[|a| + |s|..|text|] == b;
      forall k | 0 <= k < |allowed|
        ensures (a != "" ==> allowed[k] != a) && (b != "" ==> allowed[k] != b)
      {
        if a != "" {
          assert !IsAt(text, allowed[k], 0);
        }
        assert !IsAt(text, allowed[k], |a| + |s|);
      }
      EncodeSegmentsThree(t, allowed, a, s, b);
    }
  }

  /** The loop over the segments `a`, `s`, `b`, the ordinary parts only when not empty. */
  lemma EncodeSegmentsThree(t: Tables, allowed: seq<string>, a: string, s: string, b: string)
    requires SpecialsKnown(t, allowed) && s in allowed
    requires a != "" ==> a !in allowed
    requires b != "" ==> b !in allowed
    requires EncodeOrdinary(t, "", allowed) == Ok([])
    ensures var left := EncodeOrdinary(t, a, allowed);
      var right := EncodeOrdinary(t, b, allowed);
      EncodeSegments(t, (if a != "" then [a] else []) + [s] + (if b != "" then [b] else []), allowed) ==
        if left.Err? then left
        else if right.Err? then right
        else Ok(left.value + [t.inverse[s]] + right.value)
  {
    var tail := if b != "" then [b] else [];
    var right := EncodeOrdinary(t, b, allowed);
    EncodeSpecialThenRest(t, allowed, s, b);
    if a != "" {
      assert ([a] + [s] + tail)[1..] == [s] + tail;
      assert [a] + [s] + tail == [a] + ([s] + tail);
      var left := EncodeOrdinary(t, a, allowed);
      if left.Ok? && right.Ok? {
        assert left.value + ([t.inverse[s]] + right.value) == left.value + [t.inverse[s]] + right.value;
      }
    } else {
      assert [] + [s] + tail == [s] + tail;
      if right.Ok? {
        assert [] + [t.inverse[s]] + right.value == [t.inverse[s]] + right.value;
      }
    }
  }

  /** The loop over the segments `s`, `b`, the ordinary part only when not empty. */
  lemma EncodeSpecialThenRest(t: Tables, allowed: seq<string>, s: string, b: string)
    requires SpecialsKnown(t, allowed) && s in allowed
    requires b != "" ==> b !in allowed
    requires EncodeOrdinary(t, "", allowed) == Ok([])
    ensures var right := EncodeOrdinary(t, b, allowed);
      EncodeSegments(t, [s] + (if b != "" then [b] else []), allowed) ==
        if right.Err? then right else Ok([t.inverse[s]] + right.value)
  {
    var tail := if b != "" then [b] else [];
    var right := EncodeOrdinary(t, b, allowed);
    assert EncodeSegments(t, tail, allowed) == if right.Err? then right else Ok(right.value) by {
      if b != "" {
        assert tail[1..] == [];
        assert right.Ok? ==> right.value + [] == right.value;
      }
    }
    assert ([s] + tail)[1..] == tail;
  }

  /**
   * `decode(token_ids)`: "" for no ids, `ValueError` when an id has no
   * vocabulary entry, otherwise the strings joined with every marker
   * written back as a space.
   */
  function Decode(vocab: map<int, string>, ids: seq<int>): (r: Result<string>)
    ensures r.Ok? <==> Known(vocab, ids)
    ensures r.Err? ==> r.error == UnknownTokenId
    ensures ids == [] ==> r == Ok("")
  {
    if |ids| == 0 then Ok("")
    else if !Known(vocab, ids) then Err(UnknownTokenId)
    else Ok(Unmark(Join(vocab, ids)))
  }

  /** What the ids of the segments spell: each special itself, each ordinary segment preprocessed. */
  function Rendered(segs: seq<string>, allowed: seq<string>): string
  {
    if segs == [] then ""
    else (if segs[0] in allowed then segs[0] else Preprocessed(segs[0])) + Rendered(segs[1..], allowed)
  }

  /**
   * A merge sweep never changes what ids decode to: every rule's id spells
   * its pair, so the joined strings are the same and so is the text.
   */
  lemma DecodeAfterMerges(vocab: map<int, string>, merges: map<Pair, int>, ids: seq<int>)
    requires Spells(vocab, merges) && Known(vocab, ids)
    ensures Decode(vocab, Sweep(ids, merges)) == Decode(vocab, ids)
  {
    SweepPreservesJoin(vocab, merges, ids);
    if |ids| > 0 && |Sweep(ids, merges)| == 0 {
      SweepHead(ids, merges);
    }
  }

  /** Encoded ordinary text spells its preprocessed form. */
  lemma EncodeOrdinarySpells(t: Tables, segment: string, allowed: seq<string>)
    requires Coherent(t) && EncodeOrdinary(t, segment, allowed).Ok?
    ensures Known(t.vocab, EncodeOrdinary(t, segment, allowed).value)
    ensures Join(t.vocab, EncodeOrdinary(t, segment, allowed).value) == Preprocessed(segment)
  {
    var processed := Preprocessed(segment);
    CharIdsSpell(t.vocab, t.inverse, processed);
    SweepPreservesJoin(t.vocab, t.merges, CharIds(t.inverse, processed));
  }

  /** Encoded segments spell, in order, the specials and the preprocessed ordinary text. */
  lemma {:induction false} EncodeSegmentsSpell(t: Tables, segs: seq<string>, allowed: seq<string>)
    requires Coherent(t) && SpecialsKnown(t, allowed) && EncodeSegments(t, segs, allowed).Ok?
    ensures Known(t.vocab, EncodeSegments(t, segs, allowed).value)
    ensures Join(t.vocab, EncodeSegments(t, segs, allowed).value) == Rendered(segs, allowed)
  {
    if segs != [] {
      var head := if segs[0] in allowed then Ok([t.inverse[segs[0]]]) else EncodeOrdinary(t, segs[0], allowed);
      var rest := EncodeSegments(t, segs[1..], allowed);
      assert head.Ok? && rest.Ok?;
      EncodeSegmentsSpell(t, segs[1..], allowed);
      if segs[0] in allowed {
        assert Join(t.vocab, head.value) == segs[0] + Join(t.vocab, []);
      } else {
        EncodeOrdinarySpells(t, segs[0], allowed);
      }
      JoinAppend(t.vocab, head.value, rest.value);
    }
  }

  /**
   * What encoded text spells before the markers are turned back: the
   * preprocessed text without specials, the special itself for a text that
   * is one, and the rendered segments otherwise.
   */
  lemma EncodeSpells(t: Tables, text: string, allowed: seq<string>)
    requires Coherent(t) && Encode(t, text, allowed).Ok?
    ensures Known(t.vocab, Encode(t, text, allowed).value)
    ensures Join(t.vocab, Encode(t, text, allowed).value) ==
      if text == "" then ""
      else if allowed == [] then Preprocessed(text)
      else if text in allowed then text
      else Rendered(Segments(text, allowed, 0), allowed)
  {
    if text != "" {
      if allowed == [] {
        EncodeOrdinarySpells(t, text, []);
      } else if text in allowed {
        assert Join(t.vocab, [t.inverse[text]]) == text + Join(t.vocab, []);
      } else {
        EncodeSegmentsSpell(t, Segments(text, allowed, 0), allowed);
      }
    }
  }

  /**
   * Round trip without specials: decoding the ids of a text with no marker
   * in it gives back the text, less a leading space.
   */
  lemma RoundTripNoSpecials(t: Tables, text: string)
    requires Coherent(t) && Encode(t, text, []).Ok? && Marker !in text
    ensures Decode(t.vocab, Encode(t, text, []).value) == Ok(DropLeadingSpace(text))
  {
    EncodeSpells(t, text, []);
    PreprocessedProperties(text);
    var ids := Encode(t, text, []).value;
    if ids == [] {
      assert |Preprocessed(text)| == 0;
    }
  }

  /** Ordinary text without spaces or markers renders as itself. */
  lemma {:induction false} RenderedPlain(segs: seq<string>, allowed: seq<string>)
    requires ' ' !in Concat(segs) && Marker !in Concat(segs)
    ensures Rendered(segs, allowed) == Concat(segs)
  {
    if segs != [] {
      assert Concat(segs) == segs[0] + Concat(segs[1..]);
      assert forall c :: c in segs[0] ==> c in Concat(segs);
      assert forall c :: c in Concat(segs[1..]) ==> c in Concat(segs);
      PlainTextSurvivesMarking(segs[0]);
      RenderedPlain(segs[1..], allowed);
    }
  }

  /**
   * Round trip with specials: a text without spaces or markers comes back
   * unchanged from decoding its ids, whatever specials are allowed.
   */
  lemma RoundTrip(t: Tables, text: string, allowed: seq<string>)
    requires Coherent(t) && Encode(t, text, allowed).Ok?
    requires ' ' !in text && Marker !in text
    ensures Decode(t.vocab, Encode(t, text, allowed).value) == Ok(text)
  {
    EncodeSpells(t, text, allowed);
    PlainTextSurvivesMarking(text);
    if text != "" && allowed != [] && text !in allowed {
      SegmentsConcat(text, allowed, 0);
      assert text[0..] == text;
      RenderedPlain(Segments(text, allowed, 0), allowed);
    }
  }
}

/**
 * The segmentation of the byte-level `encode`: starting at a position, look
 * up every allowed special with `str.find`, take the earliest (a tie goes to
 * the special met first in iteration order), emit the text before it and the
 * special itself, and carry on after it. When no special is found, or the
 * winner is the empty string (which is falsy), the rest of the text becomes
 * the last segment.
 */
module Segmentation {
  import opened Tokens
  import opened Text

  /**
   * The earliest special among `specials[..n]` found at or after `from`, as
   * `(found_pos, index)`; `(|text|, -1)` when none is found before the end.
   * A later special replaces the current winner only at a strictly smaller
   * position.
   */
  function Earliest(text: string, specials: seq<string>, from: nat, n: nat): (r: (int, int))
    requires n <= |specials|
    ensures r.1 == -1 ==> r.0 == |text|
    ensures r.1 != -1 ==> (0 <= r.1 < n && from <= r.0 && r.0 + |specials[r.1]| <= |text|)
    ensures r.1 != -1 ==> r.0 < |text|
  {
    if n == 0 then (|text|, -1)
    else
      var prev := Earliest(text, specials, from, n - 1);
      var pos := Find(text, specials[n - 1], from);
      if pos != -1 && pos < prev.0 then (pos, n - 1) else prev
  }

  /** What `Earliest` reports is an occurrence: `find` gives that position for that special. */
  lemma {:induction false} EarliestOccurs(text: string, specials: seq<string>, from: nat, n: nat)
    requires n <= |specials|
    ensures var r := Earliest(text, specials, from, n);
      r.1 != -1 ==> r.0 == Find(text, specials[r.1], from) && IsAt(text, specials[r.1], r.0)
  {
    if n > 0 {
      EarliestOccurs(text, specials, from, n - 1);
      FindOccurs(text, specials[n - 1], from);
    }
  }

  /**
   * No special occurs before what `Earliest` reports: each of the first `n`
   * is not found, or found at or after the reported position (the end of
   * the text when nothing is found).
   */
  lemma {:induction false} EarliestIsEarliest(text: string, specials: seq<string>, from: nat, n: nat)
    requires n <= |specials|
    ensures var r := Earliest(text, specials, from, n);
      forall k :: 0 <= k < n ==> Find(text, specials[k], from) == -1 || Find(text, specials[k], from) >= r.0
  {
    if n > 0 {
      EarliestIsEarliest(text, specials, from, n - 1);
    }
  }

  /** A tie goes to the special met first: none before the reported one is found at the same position. */
  lemma {:induction false} EarliestFirst(text: string, specials: seq<string>, from: nat, n: nat)
    requires n <= |specials|
    ensures var r := Earliest(text, specials, from, n);
      r.1 != -1 ==> forall k :: 0 <= k < r.1 ==> Find(text, specials[k], from) != r.0
  {
    if n > 0 {
      EarliestFirst(text, specials, from, n - 1);
      EarliestIsEarliest(text, specials, from, n - 1);
    }
  }

  /**
   * The inner `for special in allowed_specials` loop: the earliest position
   * and the special found there, if any.
   */
  method FindEarliest(text: string, specials: seq<string>, from: nat) returns (foundPos: int, found: Option<string>)
    ensures foundPos == Earliest(text, specials, from, |specials|).0
    ensures found.None? <==> Earliest(text, specials, from, |specials|).1 == -1
    ensures found.Some? ==> found.value == specials[Earliest(text, specials, from, |specials|).1]
  {
    foundPos := |text|;
    found := None;
    ghost var index := -1;
    for k := 0 to |specials|
      invariant (foundPos, index) == Earliest(text, specials, from, k)
      invariant found.None? <==> index == -1
      invariant found.Some? ==> 0 <= index < |specials| && found.value == specials[index]
    {
      var pos := Find(text, specials[k], from);
      if pos != -1 && pos < foundPos {
        foundPos := pos;
        found := Some(specials[k]);
        index := k;
      }
    }
  }

  /** `found_special` is truthy: a special was found and it is not "". */
  predicate FoundNonEmpty(text: string, specials: seq<string>, from: nat)
  {
    var e := Earliest(text, specials, from, |specials|);
    e.1 != -1 && specials[e.1] != ""
  }

  /** The segments the `while current_pos < len(remaining_text)` loop appends from `from` on. */
  function Segments(text: string, specials: seq<string>, from: nat): (segs: seq<string>)
    requires from <= |text|
    ensures forall k :: 0 <= k < |segs| ==> segs[k] != ""
    decreases |text| - from
  {
    if from >= |text| then []
    else if FoundNonEmpty(text, specials, from) then
      var e := Earliest(text, specials, from, |specials|);
      var special := specials[e.1];
      (if e.0 > from then [text[from..e.0]] else []) + [special]
        + Segments(text, specials, e.0 + |special|)
    else [text[from..]]
  }

  /** `Segments` starting from `from` is the loop's first iteration followed by the rest. */
  method SplitSegments(text: string, specials: seq<string>) returns (segments: seq<string>)
    ensures segments == Segments(text, specials, 0)
  {
    segments := [];
    var currentPos := 0;
    while currentPos < |text|
      invariant 0 <= currentPos <= |text|
      invariant segments + Segments(text, specials, currentPos) == Segments(text, specials, 0)
      decreases |text| - currentPos
    {
      var foundPos, found := FindEarliest(text, specials, currentPos);
      ghost var tail := Segments(text, specials, currentPos);
      if found.Some? && found.value != "" {
        ghost var head := if foundPos > currentPos then [text[currentPos..foundPos]] else [];
        var next := foundPos + |found.value|;
        SegmentsStep(text, specials, currentPos);
        assert tail == head + [found.value] + Segments(text, specials, next);
        ghost var before := segments;
        if foundPos > currentPos {
          segments := segments + [text[currentPos..foundPos]];
        }
        segments := segments + [found.value];
        assert segments == before + (head + [found.value]);
        ConcatAssoc(before, head + [found.value], Segments(text, specials, next));
        currentPos := next;
      } else {
        assert tail == [text[currentPos..]];
        segments := segments + [text[currentPos..]];
        break;
      }
    }
  }

  /** Appending lists of segments is associative (a proof step for the solver; it models nothing). */
  lemma ConcatAssoc(a: seq<string>, b: seq<string>, c: seq<string>)
    ensures (a + b) + c == a + (b + c)
  {
  }

  /** One iteration of the segmentation loop that finds a non-empty special. */
  lemma SegmentsStep(text: string, specials: seq<string>, from: nat)
    requires from < |text| && FoundNonEmpty(text, specials, from)
    ensures var e := Earliest(text, specials, from, |specials|);
      Segments(text, specials, from)
      == (if e.0 > from then [text[from..e.0]] else []) + [specials[e.1]]
         + Segments(text, specials, e.0 + |specials[e.1]|)
  {
  }

  /** The segments put back together are the text from `from` on: nothing is lost or reordered. */
  lemma {:induction false} SegmentsConcat(text: string, specials: seq<string>, from: nat)
    requires from <= |text|
    ensures Concat(Segments(text, specials, from)) == text[from..]
    decreases |text| - from
  {
    var segs := Segments(text, specials, from);
    if from < |text| && FoundNonEmpty(text, specials, from) {
      var e := Earliest(text, specials, from, |specials|);
      var special := specials[e.1];
      var next := e.0 + |special|;
      var before := if e.0 > from then [text[from..e.0]] else [];
      var rest := Segments(text, specials, next);
      assert segs == before + [special] + rest;
      EarliestOccurs(text, specials, from, |specials|);
      SegmentsConcat(text, specials, next);
      assert Concat(before) == text[from..e.0] by {
        if e.0 > from {
          assert Concat(before) == text[from..e.0] + Concat([]);
        }
      }
      assert Concat([special]) == special by {
        assert Concat([special]) == special + Concat([]);
      }
      ConcatAppend(before, [special]);
      ConcatAppend(before + [special], rest);
      assert text[e.0..next] == special;
      SliceThree(text, from, e.0, next);
    } else if from < |text| {
      assert segs == [text[from..]];
      assert Concat(segs) == text[from..] + Concat([]);
    }
  }

  /**
   * With no empty special, every segment either is one of the specials or
   * holds no occurrence of any of them: the earliest-first scan leaves no
   * special inside the ordinary text.
   */
  lemma {:induction false} SegmentsSeparateSpecials(text: string, specials: seq<string>, from: nat)
    requires from <= |text|
    requires forall k :: 0 <= k < |specials| ==> specials[k] != ""
    ensures forall j :: 0 <= j < |Segments(text, specials, from)| ==>
      Segments(text, specials, from)[j] in specials
      || forall k :: 0 <= k < |specials| ==> !Contains(Segments(text, specials, from)[j], specials[k])
    decreases |text| - from
  {
    var segs := Segments(text, specials, from);
    if from < |text| {
      var e := Earliest(text, specials, from, |specials|);
      EarliestIsEarliest(text, specials, from, |specials|);
      if e.1 != -1 {
        var special := specials[e.1];
        var next := e.0 + |special|;
        SegmentsSeparateSpecials(text, specials, next);
        var rest := Segments(text, specials, next);
        var head := if e.0 > from then [text[from..e.0]] else [];
        assert segs == head + [special] + rest;
        PlainPartAvoidsSpecials(text, specials, from, e.0);
        forall j | 0 <= j < |segs|
          ensures segs[j] in specials || forall k :: 0 <= k < |specials| ==> !Contains(segs[j], specials[k])
        {
          if j >= |head| + 1 {
            assert segs[j] == rest[j - |head| - 1];
          }
        }
      } else {
        PlainPartAvoidsSpecials(text, specials, from, |text|);
        assert text[from..|text|] == text[from..];
      }
    }
  }

  /** Text before the earliest special holds none of the specials. */
  lemma PlainPartAvoidsSpecials(text: string, specials: seq<string>, from: nat, to: nat)
    requires from <= to <= |text|
    requires forall k :: 0 <= k < |specials| ==> specials[k] != ""
    requires forall k :: 0 <= k < |specials| ==>
      Find(text, specials[k], from) == -1 || Find(text, specials[k], from) >= to
    ensures forall k :: 0 <= k < |specials| ==> !Contains(text[from..to], specials[k])
  {
    forall k | 0 <= k < |specials|
      ensures !Contains(text[from..to], specials[k])
    {
      NoOccurrenceBefore(text, specials[k], from, to);
    }
  }

  /**
   * A non-empty `sub` that `find(sub, from)` does not report before `to`
   * does not occur in `text[from..to]`.
   */
  lemma NoOccurrenceBefore(text: string, sub: string, from: nat, to: nat)
    requires sub != "" && from <= to <= |text|
    requires Find(text, sub, from) == -1 || Find(text, sub, from) >= to
    ensures !Contains(text[from..to], sub)
  {
    var part := text[from..to];
    FindIsFirst(text, sub, from);
    forall j | 0 <= j
      ensures !IsAt(part, sub, j)
    {
      if IsAt(part, sub, j) {
        var a := text[from + j..from + j + |sub|];
        var b := part[j..j + |sub|];
        forall i | 0 <= i < |sub|
          ensures a[i] == b[i]
        {
          assert a[i] == text[from + j + i];
          assert b[i] == part[j + i];
        }
        assert a == b;
        assert IsAt(text, sub, from + j);
      }
    }
    ContainsIff(part, sub);
  }

  /**
   * A text made of ordinary text `a`, an allowed special `s` and ordinary
   * text `b`, where no allowed special starts inside `a` or `b` and only `s`
   * starts where `s` does, splits into `a`, `s` and `b`, each of the ordinary
   * parts only when it is not empty.
   */
  lemma SegmentsAroundSpecial(text: string, specials: seq<string>, a: string, s: string, b: string)
    requires s in specials && text == a + s + b
    requires forall k, j :: 0 <= k < |specials| && 0 <= j < |a| ==> !IsAt(text, specials[k], j)
    requires forall k :: 0 <= k < |specials| && IsAt(text, specials[k], |a|) ==> specials[k] == s
    requires forall k, j :: 0 <= k < |specials| && |a| + |s| <= j ==> !IsAt(text, specials[k], j)
    ensures Segments(text, specials, 0)
      == (if a != "" then [a] else []) + [s] + (if b != "" then [b] else [])
  {
    var i :| 0 <= i < |specials| && specials[i] == s;
    assert text[|a|..|a| + |s|] == s;
    assert !IsAt(text, specials[i], |a| + |s|);
    EarliestAt(text, specials, 0, |a|, s);
    SegmentsStep(text, specials, 0);
    assert text[0..|a|] == a;
    NoSpecialFrom(text, specials, |a| + |s|);
    assert text[|a| + |s|..] == b;
  }

  /**
   * When `s` is the only special starting at `p` and none starts between
   * `from` and `p`, the scan from `from` reports `s` at `p`.
   */
  lemma EarliestAt(text: string, specials: seq<string>, from: nat, p: nat, s: string)
    requires s in specials && s != "" && from <= p && IsAt(text, s, p)
    requires forall k, j :: 0 <= k < |specials| && from <= j < p ==> !IsAt(text, specials[k], j)
    requires forall k :: 0 <= k < |specials| && IsAt(text, specials[k], p) ==> specials[k] == s
    ensures var e := Earliest(text, specials, from, |specials|);
      e.1 != -1 && e.0 == p && specials[e.1] == s
    ensures FoundNonEmpty(text, specials, from)
  {
    var i :| 0 <= i < |specials| && specials[i] == s;
    FindIsFirst(text, s, from);
    assert Find(text, s, from) == p;
    EarliestIsEarliest(text, specials, from, |specials|);
    EarliestOccurs(text, specials, from, |specials|);
  }

  /** With no special starting at or after `from`, the rest of the text is one segment. */
  lemma NoSpecialFrom(text: string, specials: seq<string>, from: nat)
    requires from <= |text|
    requires forall k, j :: 0 <= k < |specials| && from <= j ==> !IsAt(text, specials[k], j)
    ensures Segments(text, specials, from) == if from < |text| then [text[from..]] else []
  {
    if from < |text| {
      EarliestOccurs(text, specials, from, |specials|);
    }
  }

  /** A special whose first character `a` lacks starts nowhere inside `a`, whatever follows. */
  lemma NotInsidePlain(a: string, s: string, b: string)
    requires s != "" && s[0] !in a
    ensures forall j :: 0 <= j < |a| ==> !IsAt(a + s + b, s, j)
  {
    var text := a + s + b;
    forall j | 0 <= j < |a|
      ensures !IsAt(text, s, j)
    {
      assert text[j] == a[j];
      if j + |s| <= |text| {
        assert text[j..j + |s|][0] == text[j];
      }
    }
  }

  /** Ordinary text on both sides of a special: three segments, in order. */
  lemma SegmentsExample(sp: string)
    requires sp == "<|endoftext|>"
    ensures Segments("Hello " + sp + " world", [sp], 0) == ["Hello ", sp, " world"]
  {
    NotInsidePlain("Hello ", sp, " world");
    SegmentsAroundSpecial("Hello " + sp + " world", [sp], "Hello ", sp, " world");
  }
}

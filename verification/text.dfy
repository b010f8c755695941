/**
 * The string operations the tokenizer relies on: substring search
 * (`str.find` and the `in` operator), splitting on a separator
 * (`str.split`), and the space-marker transform of the byte-level stage,
 * which drops a leading space and writes every other space as `Ġ`
 * (U+0120) before the characters are looked up.
 */
module Text {

  /** `sub` occurs in `text` starting at index `i`. */
  predicate IsAt(text: string, sub: string, i: int)
  {
    0 <= i && i + |sub| <= |text| && text[i..i + |sub|] == sub
  }

  /**
   * `text.find(sub, from)`: the first index at or after `from` where `sub`
   * occurs, or -1. An empty `sub` is found at `from` itself whenever
   * `from <= |text|`.
   */
  function Find(text: string, sub: string, from: nat): (r: int)
    ensures r == -1 || (from <= r && r + |sub| <= |text|)
    decreases |text| - from
  {
    if from + |sub| > |text| then -1
    else if text[from..from + |sub|] == sub then from
    else Find(text, sub, from + 1)
  }

  /** A result other than -1 is an occurrence of `sub`. */
  lemma {:induction false} FindOccurs(text: string, sub: string, from: nat)
    ensures Find(text, sub, from) != -1 ==> IsAt(text, sub, Find(text, sub, from))
    decreases |text| - from
  {
    if from + |sub| <= |text| && text[from..from + |sub|] != sub {
      FindOccurs(text, sub, from + 1);
    }
  }

  /**
   * `find` reports the first occurrence: -1 means `sub` occurs nowhere at
   * or after `from`, and any other result is an occurrence with none
   * between `from` and it.
   */
  lemma {:induction false} FindIsFirst(text: string, sub: string, from: nat)
    ensures var r := Find(text, sub, from);
      && (r != -1 ==> IsAt(text, sub, r))
      && (r == -1 ==> forall j :: from <= j ==> !IsAt(text, sub, j))
      && (r != -1 ==> forall j :: from <= j < r ==> !IsAt(text, sub, j))
    decreases |text| - from
  {
    if from + |sub| <= |text| && text[from..from + |sub|] != sub {
      FindIsFirst(text, sub, from + 1);
    }
  }

  /** Python's `sub in text`. */
  predicate Contains(text: string, sub: string)
    ensures Contains(text, sub) ==> |sub| <= |text|
    ensures sub == [] ==> Contains(text, sub)
  {
    Find(text, sub, 0) != -1
  }

  /** `sub in text` holds exactly when `sub` occurs at some index. */
  lemma ContainsIff(text: string, sub: string)
    ensures Contains(text, sub) <==> exists i :: IsAt(text, sub, i)
  {
    FindIsFirst(text, sub, 0);
    if exists i :: IsAt(text, sub, i) {
      var i :| IsAt(text, sub, i);
      assert 0 <= i;
    }
  }

  /** The strings of `parts`, concatenated in order: `"".join(parts)`. */
  function Concat(parts: seq<string>): string
  {
    if parts == [] then "" else parts[0] + Concat(parts[1..])
  }

  /** Concatenation distributes over appending lists of strings. */
  lemma {:induction false} ConcatAppend(a: seq<string>, b: seq<string>)
    ensures Concat(a + b) == Concat(a) + Concat(b)
  {
    if a == [] {
      assert a + b == b;
    } else {
      assert (a + b)[1..] == a[1..] + b;
      ConcatAppend(a[1..], b);
    }
  }

  /** `text.split(sep)` for a non-empty separator. */
  function SplitOn(text: string, sep: string): (parts: seq<string>)
    requires sep != ""
    ensures |parts| >= 1
    decreases |text|
  {
    var i := Find(text, sep, 0);
    if i == -1 then [text]
    else [text[..i]] + SplitOn(text[i + |sep|..], sep)
  }

  /** A suffix is the concatenation of its three consecutive slices. */
  lemma SliceThree(s: string, a: nat, b: nat, c: nat)
    requires a <= b <= c <= |s|
    ensures s[a..] == s[a..b] + s[b..c] + s[c..]
  {
  }

  /** `sep.join(parts)`. */
  function JoinWith(parts: seq<string>, sep: string): string
    requires |parts| >= 1
  {
    if |parts| == 1 then parts[0] else parts[0] + sep + JoinWith(parts[1..], sep)
  }

  /** Joining a part in front of at least one more. */
  lemma JoinWithCons(head: string, tail: seq<string>, sep: string)
    requires |tail| >= 1
    ensures JoinWith([head] + tail, sep) == head + sep + JoinWith(tail, sep)
  {
    assert ([head] + tail)[1..] == tail;
  }

  /** Splitting and joining back with the same separator gives back the text. */
  lemma {:induction false} SplitJoinRoundTrip(text: string, sep: string)
    requires sep != ""
    ensures JoinWith(SplitOn(text, sep), sep) == text
    decreases |text|
  {
    var i := Find(text, sep, 0);
    FindOccurs(text, sep, 0);
    if i != -1 {
      var rest := text[i + |sep|..];
      var parts := SplitOn(text, sep);
      SplitJoinRoundTrip(rest, sep);
      JoinWithCons(text[..i], SplitOn(rest, sep), sep);
      SliceThree(text, 0, i, i + |sep|);
    }
  }

  /** No part of a split contains the separator. */
  lemma {:induction false} SplitPartsAvoidSeparator(text: string, sep: string)
    requires sep != ""
    ensures forall k :: 0 <= k < |SplitOn(text, sep)| ==> !Contains(SplitOn(text, sep)[k], sep)
    decreases |text|
  {
    var i := Find(text, sep, 0);
    var parts := SplitOn(text, sep);
    if i == -1 {
      assert parts == [text];
      ContainsIff(text, sep);
      FindIsFirst(text, sep, 0);
    } else {
      var rest := text[i + |sep|..];
      SplitPartsAvoidSeparator(rest, sep);
      assert parts[1..] == SplitOn(rest, sep);
      var head := text[..i];
      forall j | 0 <= j && IsAt(head, sep, j)
        ensures IsAt(text, sep, j) && j < i
      {
        assert text[j..j + |sep|] == head[j..j + |sep|];
      }
      FindIsFirst(text, sep, 0);
      ContainsIff(head, sep);
      assert !Contains(head, sep);
      forall k | 0 <= k < |parts|
        ensures !Contains(parts[k], sep)
      {
        if k > 0 {
          assert parts[k] == SplitOn(rest, sep)[k - 1];
        }
      }
    }
  }

  /** A text that holds the separator splits into at least two parts. */
  lemma SplitOfContainingText(text: string, sep: string)
    requires sep != "" && Contains(text, sep)
    ensures |SplitOn(text, sep)| >= 2
  {
  }

  /** The space marker `Ġ`, U+0120. */
  const Marker: char := '\U{0120}'

  /** Drops a space at index 0 and keeps every other character. */
  function DropLeadingSpace(s: string): (r: string)
    ensures r == s || s == [' '] + r
    ensures |s| > 0 && s[0] == ' ' ==> |r| < |s|
  {
    if |s| > 0 && s[0] == ' ' then s[1..] else s
  }

  /** Writes every space as the marker. */
  function Mark(s: string): (r: string)
  {
    seq(|s|, i requires 0 <= i < |s| => if s[i] == ' ' then Marker else s[i])
  }

  /** `text.replace("Ġ", " ")`: writes every marker back as a space. */
  function Unmark(s: string): (r: string)
    ensures |r| == |s|
    ensures forall i :: 0 <= i < |r| ==> r[i] != Marker && (s[i] != Marker ==> r[i] == s[i])
  {
    seq(|s|, i requires 0 <= i < |s| => if s[i] == Marker then ' ' else s[i])
  }

  /**
   * The space preprocessing of the byte-level stage: a space at index 0
   * disappears, any other space becomes the marker.
   */
  function Preprocessed(s: string): (r: string)
    ensures |r| <= |s|
    ensures forall i :: 0 <= i < |r| ==> r[i] != ' '
  {
    Mark(DropLeadingSpace(s))
  }

  /** Preprocessing of one more character. */
  lemma PreprocessedSnoc(s: string, c: char)
    ensures Preprocessed(s + [c]) ==
      Preprocessed(s) + (if c != ' ' then [c] else if s == [] then [] else [Marker])
  {
    if s == [] {
      assert s + [c] == [c];
    } else {
      assert DropLeadingSpace(s + [c]) == DropLeadingSpace(s) + [c];
    }
  }

  /** The preprocessing loop over `enumerate(text)`. */
  method PreprocessSpaces(s: string) returns (r: string)
    ensures r == Preprocessed(s)
  {
    r := [];
    for i := 0 to |s|
      invariant r == Preprocessed(s[..i])
    {
      assert s[..i + 1] == s[..i] + [s[i]];
      PreprocessedSnoc(s[..i], s[i]);
      if s[i] == ' ' && i != 0 {
        r := r + [Marker];
      }
      if s[i] != ' ' {
        r := r + [s[i]];
      }
    }
    assert s[..|s|] == s;
  }

  /**
   * Preprocessing keeps every character but a leading space, leaves no space
   * behind, and decoding the markers back gives the text without its
   * leading space (with any marker the text already held turned into a
   * space as well).
   */
  lemma PreprocessedProperties(s: string)
    ensures |Preprocessed(s)| == |DropLeadingSpace(s)|
    ensures forall i :: 0 <= i < |Preprocessed(s)| ==> Preprocessed(s)[i] != ' '
    ensures Unmark(Preprocessed(s)) == Unmark(DropLeadingSpace(s))
    ensures Marker !in s ==> Unmark(Preprocessed(s)) == DropLeadingSpace(s)
  {
    var d := DropLeadingSpace(s);
    if Marker !in s {
      assert forall i :: 0 <= i < |d| ==> d[i] in s;
      assert Unmark(Preprocessed(s)) == d;
    }
  }

  /** Text without spaces or markers goes through preprocessing and back unchanged. */
  lemma PlainTextSurvivesMarking(s: string)
    requires ' ' !in s && Marker !in s
    ensures Preprocessed(s) == s && Unmark(s) == s
  {
    assert forall i :: 0 <= i < |s| ==> s[i] != ' ' && s[i] != Marker;
  }

  /** Unmarking distributes over concatenation. */
  lemma UnmarkAppend(a: string, b: string)
    ensures Unmark(a + b) == Unmark(a) + Unmark(b)
  {
  }

  /** A string shaped like a special token: starts with "<|" and ends with "|>". */
  predicate IsSpecialShaped(t: string)
    ensures IsSpecialShaped(t) ==> |t| >= 2 && t[0] == '<' && t[1] == '|' && t[|t| - 2] == '|' && t[|t| - 1] == '>'
  {
    |t| >= 2 && t[..2] == "<|" && t[|t| - 2..] == "|>"
  }

  /**
   * Some special-shaped vocabulary string that is not allowed occurs in
   * `segment`: the condition under which encoding refuses the segment.
   */
  predicate HasDisallowed(inverse: map<string, int>, segment: string, allowed: seq<string>)
    ensures HasDisallowed(inverse, segment, allowed) ==> |segment| >= 2
  {
    exists t :: t in inverse && IsSpecialShaped(t) && Contains(segment, t) && t !in allowed
  }

  /**
   * The scan over the vocabulary strings that raises on the first
   * special-shaped string found in the segment and not allowed.
   */
  method FindDisallowed(inverse: map<string, int>, segment: string, allowed: seq<string>) returns (found: bool)
    ensures found <==> HasDisallowed(inverse, segment, allowed)
  {
    var keys := inverse.Keys;
    while keys != {}
      invariant keys <= inverse.Keys
      invariant forall t :: t in inverse && t !in keys ==>
        !(IsSpecialShaped(t) && Contains(segment, t) && t !in allowed)
      decreases |keys|
    {
      var t :| t in keys;
      if IsSpecialShaped(t) && Contains(segment, t) && t !in allowed {
        return true;
      }
      keys := keys - {t};
    }
    return false;
  }

  /** The shape test matches the examples the tokenizer's specials take. */
  lemma SpecialShapeExamples()
    ensures IsSpecialShaped("<|endoftext|>")
    ensures IsSpecialShaped("<|>")
    ensures !IsSpecialShaped("<|") && !IsSpecialShaped("hello")
  {
  }
}

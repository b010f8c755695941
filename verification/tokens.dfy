/**
 * Values shared by every stage of the tokenizer: token ids, id pairs,
 * optional values, the errors the tokenizer raises, and the spelling of a
 * token sequence through a vocabulary.
 */
module Tokens {

  /** Python's `X | None`. */
  datatype Option<T> = None | Some(value: T)

  /**
   * The exceptions the tokenizer raises. Each variant names the failure; the
   * comment gives the Python exception class that carries it.
   */
  datatype Error =
    | NotTrained         // ValueError: encode on an empty vocabulary
    | UnknownSpecial     // ValueError: an allowed special is not in the vocabulary
    | DisallowedSpecial  // ValueError: a "<|...|>" vocabulary string in ordinary text
    | UnknownCharacter   // ValueError (character level) or KeyError (byte level)
    | UnknownTokenId     // ValueError: decode of an id outside the vocabulary
    | EmptySeparator     // ValueError: str.split with an empty separator
    | EmptyDequePop      // IndexError: popleft on an empty deque
    | MaxOfEmpty         // ValueError: max() of an empty vocabulary

  /** The outcome of an operation that returns a value or raises. */
  datatype Result<T> = Ok(value: T) | Err(error: Error)

  /** The outcome of an operation that returns nothing or raises. */
  datatype Outcome = Pass | Fail(error: Error)

  /** A pair of adjacent token ids, the key of a merge rule. */
  type Pair = (int, int)

  /** Every id of `ids` has a vocabulary entry. */
  predicate Known(vocab: map<int, string>, ids: seq<int>)
  {
    forall i :: 0 <= i < |ids| ==> ids[i] in vocab
  }

  /** `"".join(vocab[id] for id in ids)`. */
  function Join(vocab: map<int, string>, ids: seq<int>): string
    requires Known(vocab, ids)
  {
    if ids == [] then "" else vocab[ids[0]] + Join(vocab, ids[1..])
  }

  /** Joining distributes over concatenation of id sequences. */
  lemma {:induction false} JoinAppend(vocab: map<int, string>, a: seq<int>, b: seq<int>)
    requires Known(vocab, a) && Known(vocab, b)
    ensures Known(vocab, a + b)
    ensures Join(vocab, a + b) == Join(vocab, a) + Join(vocab, b)
  {
    if a == [] {
      assert a + b == b;
    } else {
      assert (a + b)[1..] == a[1..] + b;
      JoinAppend(vocab, a[1..], b);
    }
  }
}

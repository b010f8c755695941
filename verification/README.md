# BPE tokenizer — a verified model

This project models `BPETokenizer`, a byte-pair-encoding tokenizer, at two
stages of its development. A tokenizer holds three dictionaries: `vocab`
(id to string), `inverse_vocab` (string to id) and `bpe_merges` (pair of
ids to the id of their merged token).

- `train(text, vocab_size, allowed_special)` seeds the vocabulary. It then
  repeats a loop: find the most frequent adjacent pair of ids
  (`find_freq_pair`), give that pair the id `max(vocab) + 1` and rewrite
  the ids with the new token (`replace_pair`). The loop stops when the
  vocabulary reaches `vocab_size` or when no pair repeats.
- `encode(text, allowed_specials)` cuts the text around the allowed
  special tokens. It looks up the remaining characters and makes one
  greedy pass with the merge table (`apply_merges`).
- `decode(ids)` joins the strings of the ids.

The **byte-level** stage (tutorial 4) seeds the vocabulary in this order:

1. the 256 one-character strings `chr(0)`..`chr(255)`;
2. the space marker `Ġ` (U+0120) under id 256;
3. each allowed special that is not already there.

It rewrites spaces as `Ġ` and drops a space at position 0. It segments
the text at the earliest allowed special, refuses a `<|…|>`-shaped
vocabulary string that is not allowed, and `decode` turns every `Ġ` back
into a space.

The **character-level** stage (tutorials 2 and 3) seeds the vocabulary
with the sorted distinct characters of the text under ids 0..k-1. It
appends the specials after the merges under `max(vocab) + 1`, without
checking whether they are already present. Its `encode` drains a deque
with one `popleft` per allowed special: a second allowed special raises
`IndexError`. Its `decode` is a plain join.

Modules:

| module | file | models |
|---|---|---|
| `Tokens` | tokens.dfy | ids, pairs, the errors raised, `Option`/`Result`, the joined spelling of ids |
| `PairCounts` | pair_counts.dfy | `find_freq_pair` of the solutions and of the tutorial-4 stub |
| `Merging` | merging.dfy | `replace_pair` and `apply_merges` (deque loops) and the sweep they perform |
| `Text` | text.dfy | `str.find`, `in`, `str.split`, the `Ġ` preprocessing loop, the `<|…|>` shape test |
| `Segmentation` | segments.dfy | the special-token segmentation loop of byte-level `encode` |
| `Training` | training.dfy | the merge loop of `train`, common to both stages |
| `ByteLevel` | byte_level.dfy | byte-level `train` as a function of its inputs |
| `ByteEncoding` | byte_encoding.dfy | byte-level `encode` and `decode` |
| `ByteTokenizer` | byte_tokenizer.dfy | the byte-level class: fields, `train`, `encode` |
| `CharLevel` | char_level.dfy | character-level `train`, `encode`, `decode` as functions |
| `CharTokenizer` | char_tokenizer.dfy | the character-level class: fields, `train`, `encode` |

How the modules relate:

- Each class method is proved to produce the state, or the result, that
  the matching function describes. The properties of the stage are lemmas
  about those functions.
- `train` of tutorial 2 is the same code as `train` of tutorial 3, so one
  model serves both. The tutorial-3 stub `BPETokenizer.py` is identical to
  the tutorial-3 solution.
- The tutorial-4 stub's `replace_pair` is the same greedy rewrite as the
  solutions' (`Merging.ReplacePair`). Its `find_freq_pair` has no
  "count > 1" threshold and is `PairCounts.FindFreqPairAnyCount`.
- The constructor of tutorial 1 is the initial state of both classes.

## Model

| member | source | states |
|---|---|---|
| PairCounts.FirstIndex | tutorial-4-refactor-to-byte-level/src/solution_BPETokenizer.py:270-271 | the first position where a pair occurs, or the length when it does not: the key order of the `Counter` |
| PairCounts.Count | tutorial-4-refactor-to-byte-level/src/solution_BPETokenizer.py:270 | the `Counter` entry of a pair: zero for fewer than two ids, and at most one per adjacent position (`len(ids) - 1`) |
| PairCounts.CountPositiveIffOccurs | tutorial-4-refactor-to-byte-level/src/solution_BPETokenizer.py:270 | a pair is counted (count > 0) exactly when it occurs at some position |
| PairCounts.BestPos | tutorial-4-refactor-to-byte-level/src/solution_BPETokenizer.py:271 | the scan of `max`: among the first n positions, a pair whose count no other beats, and strictly beats every earlier one |
| PairCounts.BestPosIsMostFrequent | tutorial-4-refactor-to-byte-level/src/solution_BPETokenizer.py:270-271 | the pair `max` picks occurs, has the highest count, and occurs first among pairs with that count |
| PairCounts.MostFrequentIsUnique | tutorial-4-refactor-to-byte-level/src/solution_BPETokenizer.py:271 | ties are fully resolved: at most one pair is most frequent with earliest first occurrence |
| PairCounts.FindFreqPair | tutorial-4-refactor-to-byte-level/src/solution_BPETokenizer.py:266-275 | None exactly for fewer than 2 ids or when no pair occurs twice; otherwise the most frequent pair (ties to the earliest), with count >= 2 |
| PairCounts.FindFreqPairAnyCount | tutorial-4-refactor-to-byte-level/src/BPETokenizer.py:89-96 | stub: None exactly for fewer than 2 ids; otherwise the most frequent pair even when every count is 1 |
| PairCounts.StubAgreesAboveThreshold | tutorial-4-refactor-to-byte-level/src/BPETokenizer.py:92-96 | the solution's answer is the stub's answer kept only when its count is at least 2 |
| PairCounts.FindFreqPairRepeatedExample | tutorial-4-refactor-to-byte-level/tests/test_bpe_tokenizer.py:85-90 | [1,2,3,1,2] gives (1,2) |
| PairCounts.FindFreqPairLaterExample | tutorial-4-refactor-to-byte-level/tests/test_bpe_tokenizer.py:98-103 | [1,2,3,4,3,4] gives (3,4), the repeated pair and not the earliest one |
| PairCounts.StubRepeatedExample | tutorial-4-refactor-to-byte-level/tests/test_bpe_tokenizer.py:85-90 | the stub also gives (1,2) on [1,2,3,1,2] |
| PairCounts.StubLaterExample | tutorial-4-refactor-to-byte-level/tests/test_bpe_tokenizer.py:98-103 | the stub also gives (3,4) on [1,2,3,4,3,4] |
| PairCounts.FindFreqPairShortInputs | tutorial-4-refactor-to-byte-level/tests/test_bpe_tokenizer.py:92-96 | [] and [1] give None for both versions; [1,2] gives None for the solution and (1,2) for the stub |
| Merging.Sweep | tutorial-4-refactor-to-byte-level/src/solution_BPETokenizer.py:166-183 | one greedy left-to-right pass with a merge table never lengthens the ids |
| Merging.ReplacePair | tutorial-4-refactor-to-byte-level/src/solution_BPETokenizer.py:298-316 | the deque loop of `replace_pair` returns the sweep with the one-rule table `{pair: new_id}` |
| Merging.ApplyMerges | tutorial-4-refactor-to-byte-level/src/solution_BPETokenizer.py:166-183 | the deque loop of `apply_merges` returns the sweep with the whole merge table, short inputs included |
| Merging.SweepHead | tutorial-4-refactor-to-byte-level/src/solution_BPETokenizer.py:173-179 | a non-empty input gives a non-empty output whose first id is the input's first id or a merged id |
| Merging.SweepElements | tutorial-4-refactor-to-byte-level/src/solution_BPETokenizer.py:173-182 | every output id is an input id or the id of some merge rule |
| Merging.SweepWithoutKeys | tutorial-4-refactor-to-byte-level/src/solution_BPETokenizer.py:173-182 | when no adjacent pair is a rule, the output equals the input |
| Merging.SweepShortensAtKey | tutorial-4-refactor-to-byte-level/src/solution_BPETokenizer.py:175-177 | when some adjacent pair is a rule, the output is strictly shorter |
| Merging.SweepIsIdentityIff | tutorial-4-refactor-to-byte-level/src/solution_BPETokenizer.py:166-183 | the output equals the input if and only if no adjacent pair is a rule |
| Merging.SweepPreservesJoin | tutorial-4-refactor-to-byte-level/src/solution_BPETokenizer.py:175-176 | when every rule's id spells its pair, the output ids are known and spell the same string |
| Merging.ReplaceRemovesPair | tutorial-4-refactor-to-byte-level/src/solution_BPETokenizer.py:302-314 | when the new id is not part of the pair, no occurrence of the pair remains |
| Merging.ReplaceCountsNoMore | tutorial-4-refactor-to-byte-level/src/solution_BPETokenizer.py:302-314 | a pair that does not involve the new id occurs no more often after the rewrite than before |
| Merging.ReplaceRoundTrip | tutorial-4-refactor-to-byte-level/src/solution_BPETokenizer.py:298-316 | when the new id is not among the ids, expanding it back into the pair gives the input |
| Merging.ReplaceLength | tutorial-4-refactor-to-byte-level/src/solution_BPETokenizer.py:298-316 | when the new id is fresh, output length is input length minus the number of rewrites |
| Merging.SweepExamples | tutorial-4-refactor-to-byte-level/tests/test_bpe_tokenizer.py:105-130 | [1,2,3,1,2] gives [4,3,4]; [1,2,1,2] gives [3,3]; [1,3,2,4] is unchanged; [] stays [] |
| Merging.SweepIsNotAFixedPoint | tutorial-4-refactor-to-byte-level/tests/test_bpe_tokenizer.py:332-349 | one pass is not repeated: with rules (1,2)->4 and (4,3)->5, [1,2,3] becomes [4,3], and only a second pass gives [5] |
| Text.Find | tutorial-4-refactor-to-byte-level/src/solution_BPETokenizer.py:60 | `str.find`: -1 or a position from `from` on where the substring fits |
| Text.FindOccurs | tutorial-4-refactor-to-byte-level/src/solution_BPETokenizer.py:60 | a found position is an occurrence |
| Text.FindIsFirst | tutorial-4-refactor-to-byte-level/src/solution_BPETokenizer.py:60 | -1 means no occurrence from `from` on; otherwise none occurs earlier |
| Text.ContainsIff | tutorial-4-refactor-to-byte-level/src/solution_BPETokenizer.py:87 | the substring test holds exactly when the substring occurs at some position |
| Text.Contains | tutorial-4-refactor-to-byte-level/src/solution_BPETokenizer.py:87 | `sub in text`: a contained string is no longer than the text, and the empty string is in every text |
| Text.SplitOn | tutorial-3-encode-decode/src/solution_BPETokenizer.py:73 | `str.split` with a non-empty separator gives at least one part |
| Text.SplitJoinRoundTrip | tutorial-3-encode-decode/src/solution_BPETokenizer.py:73 | joining the parts with the separator gives back the text |
| Text.SplitPartsAvoidSeparator | tutorial-3-encode-decode/src/solution_BPETokenizer.py:73 | no part contains the separator |
| Text.SplitOfContainingText | tutorial-3-encode-decode/src/solution_BPETokenizer.py:71-77 | a text containing the separator splits into at least two parts, so the `['']` case does not arise |
| Text.DropLeadingSpace | tutorial-4-refactor-to-byte-level/src/solution_BPETokenizer.py:111-116 | the `i != 0` test: the text itself, or the text that follows one leading space, which is then one shorter |
| Text.Unmark | tutorial-4-refactor-to-byte-level/src/solution_BPETokenizer.py:146 | `replace("Ġ", " ")`: same length, no marker left, every other character kept in place |
| Text.Preprocessed | tutorial-4-refactor-to-byte-level/src/solution_BPETokenizer.py:110-117 | the preprocessed text is never longer than the text and holds no space |
| Text.PreprocessedSnoc | tutorial-4-refactor-to-byte-level/src/solution_BPETokenizer.py:111-116 | one step of preprocessing: a non-space is kept, a space becomes `Ġ` except at index 0 where it is dropped |
| Text.PreprocessSpaces | tutorial-4-refactor-to-byte-level/src/solution_BPETokenizer.py:202-209 | the character loop builds the preprocessed text |
| Text.PreprocessedProperties | tutorial-4-refactor-to-byte-level/src/solution_BPETokenizer.py:110-117 | same length as the text less a leading space; no space is left; turning markers back into spaces gives the text less its leading space when it had no marker |
| Text.PlainTextSurvivesMarking | tutorial-4-refactor-to-byte-level/src/solution_BPETokenizer.py:110-117 | text without spaces or markers is left unchanged both ways |
| Text.UnmarkAppend | tutorial-4-refactor-to-byte-level/src/solution_BPETokenizer.py:146 | `replace("Ġ", " ")` distributes over concatenation |
| Text.FindDisallowed | tutorial-4-refactor-to-byte-level/src/solution_BPETokenizer.py:86-89 | the scan finds a hit exactly when a `<|…|>`-shaped vocabulary string occurs in the segment and is not allowed |
| Text.HasDisallowed | tutorial-4-refactor-to-byte-level/src/solution_BPETokenizer.py:86-89 | the refusal condition; it can only hold for a segment of at least two characters |
| Text.IsSpecialShaped | tutorial-4-refactor-to-byte-level/src/solution_BPETokenizer.py:87 | `startswith("<|") and endswith("|>")`: at least two characters, `<` and `|` first, `|` and `>` last |
| Text.SpecialShapeExamples | tutorial-4-refactor-to-byte-level/src/solution_BPETokenizer.py:87 | `<|endoftext|>` and `<|>` are special-shaped; `<|` and `hello` are not |
| Segmentation.Earliest | tutorial-4-refactor-to-byte-level/src/solution_BPETokenizer.py:55-63 | the position and index of the special found: none means the text length; otherwise a special that fits in the text from the current position |
| Segmentation.EarliestOccurs | tutorial-4-refactor-to-byte-level/src/solution_BPETokenizer.py:59-63 | the special found occurs at the position found, which is its `find` result |
| Segmentation.EarliestIsEarliest | tutorial-4-refactor-to-byte-level/src/solution_BPETokenizer.py:59-63 | no special occurs before the position found |
| Segmentation.EarliestFirst | tutorial-4-refactor-to-byte-level/src/solution_BPETokenizer.py:61 | a tie at the same position goes to the earlier special in iteration order (strict `<`) |
| Segmentation.FindEarliest | tutorial-4-refactor-to-byte-level/src/solution_BPETokenizer.py:55-63 | the `for special` loop returns the position and the special `Earliest` describes |
| Segmentation.Segments | tutorial-4-refactor-to-byte-level/src/solution_BPETokenizer.py:54-76 | the segments are never empty strings |
| Segmentation.SplitSegments | tutorial-4-refactor-to-byte-level/src/solution_BPETokenizer.py:51-76 | the `while current_pos` loop builds the segments `Segments` describes |
| Segmentation.SegmentsStep | tutorial-4-refactor-to-byte-level/src/solution_BPETokenizer.py:65-71 | when a non-empty special is found: the text before it if any, the special, then the segments after it |
| Segmentation.SegmentsConcat | tutorial-4-refactor-to-byte-level/src/solution_BPETokenizer.py:54-76 | the segments concatenate back to the text: segmentation loses and adds nothing |
| Segmentation.SegmentsSeparateSpecials | tutorial-4-refactor-to-byte-level/src/solution_BPETokenizer.py:54-76 | with non-empty specials, each segment is a special or contains none of them |
| Segmentation.NoOccurrenceBefore | tutorial-4-refactor-to-byte-level/src/solution_BPETokenizer.py:60-68 | a substring whose first occurrence is at or after `to` does not occur in the text before `to` |
| Segmentation.SegmentsExample | tutorial-4-refactor-to-byte-level/src/solution_BPETokenizer.py:54-76 | "Hello " + `<|endoftext|>` + " world" splits into "Hello ", the special and " world" |
| Segmentation.SegmentsAroundSpecial | tutorial-4-refactor-to-byte-level/src/solution_BPETokenizer.py:54-76 | when `s` is the only special starting at `len(a)` and no special starts elsewhere in `a + s + b`, the segments are `a` (if not empty), `s`, then `b` (if not empty) |
| Segmentation.EarliestAt | tutorial-4-refactor-to-byte-level/src/solution_BPETokenizer.py:55-63 | when no special starts in `[from, p)` and `s` is the only special at `p`, the `for special` scan reports `s` at `p` |
| Segmentation.NoSpecialFrom | tutorial-4-refactor-to-byte-level/src/solution_BPETokenizer.py:72-76 | when no special starts at or after `from`, the rest of the text is one last segment, or none when it is empty |
| Training.MaxKey | tutorial-4-refactor-to-byte-level/src/solution_BPETokenizer.py:238 | `max(vocab)` of a non-empty vocabulary is a key no key exceeds |
| Training.CharIds | tutorial-4-refactor-to-byte-level/src/solution_BPETokenizer.py:230 | the per-character lookup gives one id per character |
| Training.LookupChars | tutorial-4-refactor-to-byte-level/src/solution_BPETokenizer.py:230 | the lookup succeeds exactly when every character has an id, and gives those ids; otherwise the lookup error |
| Training.CharIdsSpell | tutorial-3-encode-decode/src/solution_BPETokenizer.py:197 | when `vocab` inverts `inverse_vocab`, the ids of a text are known and spell the text |
| Training.ContiguousMax | tutorial-4-refactor-to-byte-level/src/solution_BPETokenizer.py:238 | with keys 0..n-1, `max(vocab) + 1` is `len(vocab)` |
| Training.Learn | tutorial-4-refactor-to-byte-level/src/solution_BPETokenizer.py:238-244 | one merge adds exactly the fresh key `max(vocab)+1`, keeps every old entry, adds the rule for the pair, and spells the new id as the pair's strings joined |
| Training.FoundPairIsKnown | tutorial-4-refactor-to-byte-level/src/solution_BPETokenizer.py:242 | the pair found among known ids has both ids in `vocab`, so the lookups of the merge do not fail |
| Training.MergeLoop | tutorial-4-refactor-to-byte-level/src/solution_BPETokenizer.py:233-245 | the loop stops at `vocab_size` or when no pair repeats; it keeps old entries and rules and never passes `vocab_size` from below |
| Training.MergeLoopStep | tutorial-4-refactor-to-byte-level/src/solution_BPETokenizer.py:234-245 | one iteration: the loop from the state after one merge and rewrite ends where the loop from before ends |
| Training.LearnKeepsCoherent | tutorial-4-refactor-to-byte-level/src/solution_BPETokenizer.py:238-244 | one merge keeps `vocab[inverse_vocab[s]] == s` and every rule's id spelling its pair |
| Training.MergeLoopKeepsCoherent | tutorial-4-refactor-to-byte-level/src/solution_BPETokenizer.py:233-245 | the whole loop keeps that coherence |
| Training.LearnKeepsContiguous | tutorial-4-refactor-to-byte-level/src/solution_BPETokenizer.py:238-243 | one merge keeps the keys 0..len-1 and uses id `len(vocab)` |
| Training.MergeLoopKeepsContiguous | tutorial-4-refactor-to-byte-level/src/solution_BPETokenizer.py:233-245 | the whole loop keeps the keys 0..len-1 |
| Training.LearnKeepsSpells | tutorial-4-refactor-to-byte-level/src/solution_BPETokenizer.py:239-243 | every rule's id, the new one included, spells its pair's strings joined |
| Training.MergeLoopSpellsText | tutorial-4-refactor-to-byte-level/src/solution_BPETokenizer.py:233-245 | the rewritten ids spell the same text as the original ids |
| Training.MergeLoopCountsMerges | tutorial-4-refactor-to-byte-level/src/solution_BPETokenizer.py:233-245 | each iteration adds exactly one entry and one new rule, so rules added equal entries added; old rules are kept |
| Training.LearnRetires | tutorial-4-refactor-to-byte-level/src/solution_BPETokenizer.py:234-245 | the pair found is not yet a rule, so the rule table grows by one |
| Training.DistinctIdsPairOnce | tutorial-2-implement-train/src/solution_BPETokenizer.py:87-89 | pairwise distinct ids contain no pair twice |
| Training.MergeLoopOnDistinctIds | tutorial-2-implement-train/src/solution_BPETokenizer.py:43-47 | on pairwise distinct ids the loop stops at once and learns nothing |
| Training.MergeLoopFromFresh | tutorial-4-refactor-to-byte-level/src/solution_BPETokenizer.py:233-245 | from coherent tables without rules: coherent, keys 0..len-1, old strings keep their ids, len = seed + rules, and at most `vocab_size` entries |
| ByteLevel.ByteString | tutorial-4-refactor-to-byte-level/src/solution_BPETokenizer.py:212 | `chr(i)` is the one-character string of code point i |
| ByteLevel.ByteVocab | tutorial-4-refactor-to-byte-level/src/solution_BPETokenizer.py:212 | the keys of `{i: chr(i)}` are exactly 0..n-1 |
| ByteLevel.ByteVocabSize | tutorial-4-refactor-to-byte-level/src/solution_BPETokenizer.py:212 | that vocabulary has n entries |
| ByteLevel.ByteInverseFacts | tutorial-4-refactor-to-byte-level/src/solution_BPETokenizer.py:213 | the inverse holds exactly the one-character strings below n, each under its code point |
| ByteLevel.AddEntry | tutorial-4-refactor-to-byte-level/src/solution_BPETokenizer.py:224-227 | the added string is looked up to an id that spells it; rules untouched; on ids 0..n-1 the new id is n and the ids stay contiguous |
| ByteLevel.AddSpecials | tutorial-4-refactor-to-byte-level/src/solution_BPETokenizer.py:221-227 | the specials loop never removes a lookup and never touches the rules |
| ByteLevel.Missing | tutorial-4-refactor-to-byte-level/src/solution_BPETokenizer.py:223-224 | the specials the loop adds, in order, skipping present ones and repeats: never more than the specials given |
| ByteLevel.AddSpecialsKeepsId | tutorial-4-refactor-to-byte-level/src/solution_BPETokenizer.py:224 | a string already looked up keeps its id through the specials loop |
| ByteLevel.AddSpecialsVocab | tutorial-4-refactor-to-byte-level/src/solution_BPETokenizer.py:222-227 | the vocabulary after the loop is the old one with exactly the missing specials stored under the next ids |
| ByteLevel.AddSpecialsIdAt | tutorial-4-refactor-to-byte-level/src/solution_BPETokenizer.py:225-227 | the `k`-th missing special is looked up under `len(vocab) + k` |
| ByteLevel.AddSpecialsLayout | tutorial-4-refactor-to-byte-level/src/solution_BPETokenizer.py:222-227 | on ids 0..n-1 the loop adds one entry per missing special and nothing for present or repeated ones: size n + missing, the `k`-th missing one under n + k both ways |
| ByteLevel.AddEntryKeeps | tutorial-4-refactor-to-byte-level/src/solution_BPETokenizer.py:216-219 | adding a missing string under `len(vocab)` keeps the inverse exact and the keys contiguous, and adds one entry |
| ByteLevel.AddSpecialsKeeps | tutorial-4-refactor-to-byte-level/src/solution_BPETokenizer.py:222-227 | after the specials loop every special has an id, old ids are unchanged, new entries are specials, keys stay contiguous |
| ByteLevel.SeedState | tutorial-4-refactor-to-byte-level/src/solution_BPETokenizer.py:211-227 | the seed: `vocab[i] == chr(i)` below 256, `Ġ` under 256, every special present, ids above 256 are specials, old rules kept |
| ByteLevel.Seed | tutorial-4-refactor-to-byte-level/src/solution_BPETokenizer.py:211-227 | the seed always looks up `Ġ` and keeps the rules it was given |
| ByteLevel.SeedLayout | tutorial-4-refactor-to-byte-level/src/solution_BPETokenizer.py:211-227 | the seed has 257 + m entries, m the number of missing specials, and the `k`-th missing special has id 257 + k |
| ByteLevel.SeedByteSpecialExample | tutorial-4-refactor-to-byte-level/src/solution_BPETokenizer.py:221-227 | a special that is already a byte string ("a") adds nothing: 257 entries |
| ByteLevel.SeedRepeatedSpecialExample | tutorial-4-refactor-to-byte-level/src/solution_BPETokenizer.py:221-227 | a repeated special is added once: 258 entries, the special under 257 |
| ByteLevel.SeedEndOfText | tutorial-4-refactor-to-byte-level/tests/test_bpe_tokenizer.py:132-151 | with `<|endoftext|>` the seed has 258 entries and the special under 257 |
| ByteLevel.MarkedBase | tutorial-4-refactor-to-byte-level/src/solution_BPETokenizer.py:215-219 | `Ġ` is never among the 256 byte strings, so it is always added, under id 256 |
| ByteLevel.FreshSeedCoherent | tutorial-4-refactor-to-byte-level/src/solution_BPETokenizer.py:211-227 | the seed of a fresh tokenizer is coherent |
| ByteLevel.TrainSpec | tutorial-4-refactor-to-byte-level/src/solution_BPETokenizer.py:202-245 | `train` fails exactly when a preprocessed character has no id (`KeyError`), leaving the seed; otherwise it runs the merge loop |
| ByteLevel.TrainAcceptsByteText | tutorial-4-refactor-to-byte-level/src/solution_BPETokenizer.py:230 | text whose characters are below 256 or `Ġ` always trains |
| ByteLevel.TrainedState | tutorial-4-refactor-to-byte-level/src/solution_BPETokenizer.py:211-245 | after a fresh `train`: coherent, keys 0..len-1, byte strings under their code points, `Ġ` at 256, each special maps to an id spelling it, len = seed + rules, at most `vocab_size` |
| ByteLevel.SeedTextIds | tutorial-4-refactor-to-byte-level/src/solution_BPETokenizer.py:230 | over any seed, text below 256 without spaces is left alone by preprocessing and looks up to its code points |
| ByteLevel.TrainPlainText | tutorial-4-refactor-to-byte-level/src/solution_BPETokenizer.py:202-245 | such text trains, and the result is the merge loop over its code points |
| ByteLevel.TrainExampleRepeated | tutorial-4-refactor-to-byte-level/tests/test_bpe_tokenizer.py:37-69 | "ababab" at size 258 learns exactly the rule (97,98) -> 257, with "ab" at 257 both ways and 258 entries |
| ByteLevel.LearnAb | tutorial-4-refactor-to-byte-level/tests/test_bpe_tokenizer.py:299-317 | from a 257-entry seed spelling a and b at 97 and 98, the loop at size 258 over [97,98,97,98,97,98] learns only "ab" at 257 |
| ByteLevel.TrainExampleDistinct | tutorial-4-refactor-to-byte-level/tests/test_bpe_tokenizer.py:71-83 | "abcde" learns no rule and keeps 257 entries |
| ByteLevel.TrainExampleEmpty | tutorial-4-refactor-to-byte-level/tests/test_bpe_tokenizer.py:174-177 | "" trains to 257 entries and no rule |
| ByteLevel.TrainHello | tutorial-4-refactor-to-byte-level/tests/test_bpe_tokenizer.py:256-269 | "hello" at size 300 learns nothing whatever the specials: the state is the seed |
| ByteLevel.HelloNoPair | tutorial-4-refactor-to-byte-level/tests/test_bpe_tokenizer.py:256-269 | the ids of "hello" repeat no pair, though they repeat an id |
| ByteLevel.ByteExampleNoPair | tutorial-4-refactor-to-byte-level/tests/test_bpe_tokenizer.py:71-83 | the ids of "abcde" have no repeated pair |
| ByteLevel.ByteExampleFreqPair | tutorial-4-refactor-to-byte-level/tests/test_bpe_tokenizer.py:37-69 | the ids of "ababab" have (97,98) as their most frequent pair |
| ByteEncoding.EncodeOrdinary | tutorial-4-refactor-to-byte-level/src/solution_BPETokenizer.py:84-101 | an ordinary segment fails exactly on a disallowed special (checked first) or an unknown character; otherwise at most one id per preprocessed character |
| ByteEncoding.Encode | tutorial-4-refactor-to-byte-level/src/solution_BPETokenizer.py:30-121 | untrained fails; "" gives []; an unknown allowed special fails; text equal to an allowed special gives its id; with no specials the whole text is ordinary |
| ByteEncoding.EncodeSegments | tutorial-4-refactor-to-byte-level/src/solution_BPETokenizer.py:79-101 | the `for segment` loop: an error it raises is the error of some ordinary segment |
| ByteEncoding.EncodeSegmentsFirstError | tutorial-4-refactor-to-byte-level/src/solution_BPETokenizer.py:79-101 | when every earlier segment is an allowed special or encodes, an ordinary segment that fails makes the loop raise that segment's error |
| ByteEncoding.EncodeSegmentsOk | tutorial-4-refactor-to-byte-level/src/solution_BPETokenizer.py:79-101 | the loop succeeds exactly when every ordinary segment encodes |
| ByteEncoding.EncodeFirstSegmentError | tutorial-4-refactor-to-byte-level/src/solution_BPETokenizer.py:54-101 | with allowed specials, for any number of special occurrences, `encode` raises the error of the first failing ordinary segment: `DisallowedSpecial` when that segment contains a disallowed special, else `UnknownCharacter` |
| ByteEncoding.EncodeOrdinaryEmpty | tutorial-4-refactor-to-byte-level/src/solution_BPETokenizer.py:92-101 | an empty ordinary segment encodes to no ids |
| ByteEncoding.EncodeAroundSpecial | tutorial-4-refactor-to-byte-level/src/solution_BPETokenizer.py:30-101 | text `a + s + b` whose only special occurrence is `s` at `len(a)` encodes to the ids of `a`, the id of `s`, then the ids of `b`, or the first error |
| ByteEncoding.Decode | tutorial-4-refactor-to-byte-level/src/solution_BPETokenizer.py:136-148 | succeeds exactly when every id is known, else `ValueError`; [] gives "" |
| ByteEncoding.DecodeAfterMerges | tutorial-4-refactor-to-byte-level/src/solution_BPETokenizer.py:143-146 | decoding after `apply_merges` gives what decoding before gives |
| ByteEncoding.EncodeOrdinarySpells | tutorial-4-refactor-to-byte-level/src/solution_BPETokenizer.py:92-101 | the ids of an ordinary segment spell its preprocessed form |
| ByteEncoding.EncodeSegmentsSpell | tutorial-4-refactor-to-byte-level/src/solution_BPETokenizer.py:79-101 | the ids of the segments spell, in order, each special and each preprocessed ordinary segment |
| ByteEncoding.EncodeSpells | tutorial-4-refactor-to-byte-level/src/solution_BPETokenizer.py:30-121 | encoded text spells the preprocessed text, the special itself, or the rendered segments, by case |
| ByteEncoding.RoundTripNoSpecials | tutorial-4-refactor-to-byte-level/src/solution_BPETokenizer.py:110-148 | without specials, text with no `Ġ` decodes back to itself less a leading space |
| ByteEncoding.RenderedPlain | tutorial-4-refactor-to-byte-level/src/solution_BPETokenizer.py:92-98 | segments without spaces or markers render as their concatenation |
| ByteEncoding.RoundTrip | tutorial-4-refactor-to-byte-level/src/solution_BPETokenizer.py:16-148 | with any allowed specials, text without spaces or `Ġ` decodes back to itself |
| ByteTokenizer.BPETokenizer.constructor | tutorial-1-initialization/src/solution_BPETokenizer.py:6-13 | a new tokenizer has three empty dictionaries |
| ByteTokenizer.BPETokenizer.Train | tutorial-4-refactor-to-byte-level/src/solution_BPETokenizer.py:185-245 | the outcome and new fields are `TrainSpec` of the text, size, specials and the rules held before |
| ByteTokenizer.BPETokenizer.SeedVocabulary | tutorial-4-refactor-to-byte-level/src/solution_BPETokenizer.py:211-227 | the fields become the seed; rules unchanged |
| ByteTokenizer.BPETokenizer.LearnMerges | tutorial-4-refactor-to-byte-level/src/solution_BPETokenizer.py:233-245 | the `while` loop leaves the state `MergeLoop` describes |
| ByteTokenizer.BPETokenizer.AddMerge | tutorial-4-refactor-to-byte-level/src/solution_BPETokenizer.py:238-244 | one merge body leaves the state `Learn` describes |
| ByteTokenizer.BPETokenizer.EncodeOrdinaryText | tutorial-4-refactor-to-byte-level/src/solution_BPETokenizer.py:84-101 | the ordinary-segment code returns `EncodeOrdinary` of the current state |
| ByteTokenizer.BPETokenizer.Encode | tutorial-4-refactor-to-byte-level/src/solution_BPETokenizer.py:16-121 | `encode` returns `Encode` of the current state |
| ByteTokenizer.EncodeHello | tutorial-4-refactor-to-byte-level/tests/test_bpe_tokenizer.py:189-200 | with byte strings under their code points and no rules, "hello" encodes to 104 101 108 108 111 |
| ByteTokenizer.EncodeHelloThenSpecial | tutorial-4-refactor-to-byte-level/tests/test_bpe_tokenizer.py:271-284 | over any seed holding a special-shaped `sp`, "hello" + `sp` with `sp` allowed encodes to 104 101 108 108 111 then the id of `sp` |
| ByteTokenizer.EncodeMixedExample | tutorial-4-refactor-to-byte-level/tests/test_bpe_tokenizer.py:271-284 | after training "hello" with `<|endoftext|>`: the special has id 257 and "hello<|endoftext|>" encodes to 104 101 108 108 111 257 |
| CharLevel.Insert | tutorial-3-encode-decode/src/solution_BPETokenizer.py:191 | inserting into a strictly increasing sequence keeps it increasing and adds exactly the character |
| CharLevel.SortedChars | tutorial-3-encode-decode/src/solution_BPETokenizer.py:191 | `sorted(set(text))` is strictly increasing with exactly the characters of the text |
| CharLevel.CharVocabKeys | tutorial-3-encode-decode/src/solution_BPETokenizer.py:192 | `{i: ch}` has keys exactly 0..k-1 |
| CharLevel.CharInverseFacts | tutorial-3-encode-decode/src/solution_BPETokenizer.py:193 | each character maps to its index, and the inverse holds only those characters |
| CharLevel.CharSeed | tutorial-3-encode-decode/src/solution_BPETokenizer.py:191-193 | the seed has ids exactly 0..k-1 holding the sorted distinct characters, and keeps the rules |
| CharLevel.CharSeedInverts | tutorial-3-encode-decode/src/solution_BPETokenizer.py:191-197 | the seed's `vocab` inverts its `inverse_vocab`, and every character of the text has an id |
| CharLevel.CharSeedEmpty | tutorial-2-implement-train/src/solution_BPETokenizer.py:36-38 | the seed is empty exactly for empty text, and then has no entries at all |
| CharLevel.CharSeedFresh | tutorial-3-encode-decode/src/solution_BPETokenizer.py:191-193 | a fresh seed is coherent with keys 0..k-1 holding the sorted distinct characters |
| CharLevel.CharSeedInverse | tutorial-3-encode-decode/src/solution_BPETokenizer.py:193 | the inverse holds exactly the one-character strings of the text's characters |
| CharLevel.IncreasingUnique | tutorial-3-encode-decode/src/solution_BPETokenizer.py:191 | two increasing sequences with the same characters are equal |
| CharLevel.SortedCharsUnique | tutorial-3-encode-decode/src/solution_BPETokenizer.py:191 | any increasing sequence of exactly the text's characters is `SortedChars` of it |
| CharLevel.AppendSpecialsOutcome | tutorial-3-encode-decode/src/solution_BPETokenizer.py:213-217 | the specials loop fails exactly for an empty vocabulary and some special, with `max()` of empty and nothing changed; rules untouched |
| CharLevel.AppendSpecials | tutorial-3-encode-decode/src/solution_BPETokenizer.py:213-217 | the loop fails only on an empty vocabulary, with `max()` of empty and nothing changed; it never touches the rules |
| CharLevel.AppendSpecialsFacts | tutorial-3-encode-decode/src/solution_BPETokenizer.py:213-217 | on success: coherent, contiguous, old entries kept, one new entry per special even when already present, in order from `len(vocab)` |
| CharLevel.MergedFresh | tutorial-3-encode-decode/src/solution_BPETokenizer.py:191-209 | seed plus merge loop from no rules: coherent, characters first, len = k + rules, at most `vocab_size` |
| CharLevel.Merged | tutorial-3-encode-decode/src/solution_BPETokenizer.py:191-209 | the merge loop keeps the characters under 0..k-1 and every old rule |
| CharLevel.TrainSpec | tutorial-3-encode-decode/src/solution_BPETokenizer.py:191-217 | `train` fails only with `max()` of empty, and never drops a rule |
| CharLevel.TrainWithoutSpecials | tutorial-3-encode-decode/src/solution_BPETokenizer.py:191-213 | without specials, `train` passes and is the merge loop from the seed |
| CharLevel.TrainOutcome | tutorial-3-encode-decode/src/solution_BPETokenizer.py:191-217 | `train` fails exactly for empty text with some special (`max()` of empty); empty text with no specials leaves empty maps |
| CharLevel.TrainedState | tutorial-3-encode-decode/src/solution_BPETokenizer.py:191-217 | after a fresh `train`: coherent, characters at 0..k-1, len = k + rules + specials, specials last in order, may exceed `vocab_size` by the specials |
| CharLevel.SpecialsAfterMerges | tutorial-2-implement-train/src/solution_BPETokenizer.py:58-62 | specials appended after the merges land at the last ids, in order |
| CharLevel.TrainDistinctLearnsNothing | tutorial-2-implement-train/tests/test_bpe_tokenizer.py:70-83 | text with distinct characters learns no rule: the state is the seed |
| CharLevel.TrainExampleRepeated | tutorial-2-implement-train/tests/test_bpe_tokenizer.py:37-69 | "ababab" at size 3 learns exactly (0,1) -> 2 spelling "ab" |
| CharLevel.ExampleLearnsAb | tutorial-2-implement-train/src/solution_BPETokenizer.py:42-54 | the loop at size 3 over [0,1,0,1,0,1] learns only "ab" at 2 |
| CharLevel.ExampleFreqPair | tutorial-2-implement-train/tests/test_bpe_tokenizer.py:37-69 | (0,1) is the most frequent pair of [0,1,0,1,0,1] |
| CharLevel.PlainTextKnown | tutorial-3-encode-decode/src/solution_BPETokenizer.py:97-102 | the joined ordinary text has only known characters exactly when every ordinary piece has |
| CharLevel.PlainText | tutorial-3-encode-decode/src/solution_BPETokenizer.py:98 | the joined ordinary text is no longer than all pieces joined, and empty when every piece is a special |
| CharLevel.Encode | tutorial-3-encode-decode/src/solution_BPETokenizer.py:48-114 | untrained fails; "" gives []; unknown special fails; a second allowed special gives `IndexError`; "" as first special gives the split error; no specials: lookup then sweep, or unknown character |
| CharLevel.EncodeOneSpecial | tutorial-3-encode-decode/src/solution_BPETokenizer.py:59-114 | with one allowed non-empty special the pieces are produced; encoding fails, with `UnknownCharacter`, exactly when a character of an ordinary piece has no id (the special's own characters are not looked up), and otherwise gives the pieces encoded in order |
| CharLevel.WholePiece | tutorial-3-encode-decode/src/solution_BPETokenizer.py:93-95 | with no specials the single piece is the whole text, known exactly when its characters are |
| CharLevel.Pieces | tutorial-3-encode-decode/src/solution_BPETokenizer.py:59-95 | `special_encoded_split` succeeds only with at most one allowed special; it fails with the `IndexError` of a second `popleft`, or with the split error of an empty first special |
| CharLevel.SplitStep | tutorial-3-encode-decode/src/solution_BPETokenizer.py:70-92 | one split fails exactly when the special is empty and occurs (`str.split` refuses an empty separator) |
| CharLevel.Decode | tutorial-3-encode-decode/src/solution_BPETokenizer.py:129-133 | succeeds exactly when every id is known, else `ValueError`; [] gives "" even untrained |
| CharLevel.EncodePiecesSpell | tutorial-3-encode-decode/src/solution_BPETokenizer.py:104-114 | the ids of the pieces spell the pieces' texts in order |
| CharLevel.EncodePieces | tutorial-3-encode-decode/src/solution_BPETokenizer.py:104-114 | step 3 gives at most one id per special piece plus one per ordinary character |
| CharLevel.PiecesFromSpell | tutorial-3-encode-decode/src/solution_BPETokenizer.py:81-89 | the pieces from the split parts spell the parts joined by the special |
| CharLevel.PiecesFromShape | tutorial-3-encode-decode/src/solution_BPETokenizer.py:81-89 | each such piece is a non-empty part as ordinary text or the special with its id |
| CharLevel.PiecesFrom | tutorial-3-encode-decode/src/solution_BPETokenizer.py:81-89 | every special piece of the `enumerate(left_split)` loop is the special with its id |
| CharLevel.PiecesSpellText | tutorial-3-encode-decode/src/solution_BPETokenizer.py:61-95 | the pieces spell the text, and every special piece's id spells its text |
| CharLevel.RoundTrip | tutorial-3-encode-decode/src/solution_BPETokenizer.py:48-133 | whatever encodes, on a coherent state, decodes back to the text |
| CharLevel.OneSpecialPieces | tutorial-3-encode-decode/src/solution_BPETokenizer.py:71-89 | with one special that occurs, every piece is that special with its id or non-empty text without it |
| CharTokenizer.BPETokenizer.constructor | tutorial-1-initialization/src/solution_BPETokenizer.py:6-13 | a new tokenizer has three empty dictionaries |
| CharTokenizer.BPETokenizer.Train | tutorial-3-encode-decode/src/solution_BPETokenizer.py:170-217 | the outcome and new fields are `TrainSpec` of the text, size, specials and the rules held before |
| CharTokenizer.BPETokenizer.LearnMerges | tutorial-3-encode-decode/src/solution_BPETokenizer.py:198-209 | the `while` loop leaves the state `MergeLoop` describes |
| CharTokenizer.BPETokenizer.AddMerge | tutorial-3-encode-decode/src/solution_BPETokenizer.py:204-208 | one merge body leaves the state `Learn` describes |
| CharTokenizer.BPETokenizer.AddSpecials | tutorial-3-encode-decode/src/solution_BPETokenizer.py:213-217 | the specials loop leaves the outcome and state `AppendSpecials` describes |
| CharTokenizer.BPETokenizer.Encode | tutorial-3-encode-decode/src/solution_BPETokenizer.py:16-114 | `encode` returns `Encode` of the current state |
| CharTokenizer.BPETokenizer.SplitOnSpecials | tutorial-3-encode-decode/src/solution_BPETokenizer.py:61-92 | the deque loop returns the pieces, or the `IndexError` of a second `popleft` |
| CharTokenizer.BPETokenizer.PiecesOfParts | tutorial-3-encode-decode/src/solution_BPETokenizer.py:81-89 | the `enumerate(left_split)` loop builds the pieces `PiecesFrom` describes |
| CharTokenizer.BPETokenizer.JoinPlain | tutorial-3-encode-decode/src/solution_BPETokenizer.py:98 | the join of the ordinary pieces' texts |
| CharTokenizer.BPETokenizer.EncodeAll | tutorial-3-encode-decode/src/solution_BPETokenizer.py:105-114 | the step-3 loop returns the ids `EncodePieces` describes |

## Left out

- `print` calls of the character-level code: console output with no effect on results.
- Set iteration order. `allowed_special` and `allowed_specials` are Python sets; the model takes them as a sequence in iteration order. Special ids in `train`, and ties between specials found at the same position in `encode`, follow that sequence.
- Python `Counter`, `deque` and hashing are modelled by functions and loops over sequences.
- Unicode: `chr(i)` is modelled as the character with code point i. No bytes are produced anywhere.
- `decode` of both stages reads only `vocab`. It is a function of the vocabulary (`ByteEncoding.Decode`, `CharLevel.Decode`), not a class method.
- The `pass` methods of the tutorial-4 stub, and the tutorial-2 stub: they have no behaviour.
- Training on a tokenizer that already holds merge rules keeps those rules (`train` does not clear `bpe_merges`). `Train` models this. The coherence and size lemmas (`ByteLevel.TrainedState`, `CharLevel.TrainedState`, `Training.MergeLoopFromFresh`) are stated for a fresh tokenizer with no rules.
- The `['']` branch of character-level `encode` is modelled, but `Text.SplitOfContainingText` shows that it cannot be reached.
- CharLevel.TrainExampleRepeated: states the "ababab" example for any text equal to it character by character, not for the literal.
- Merging.SweepIsNotAFixedPoint: shows on small ids, not on the trained "hello hello" table, that one `apply_merges` pass is not repeated until nothing changes.
- Merging.SweepElements: states that each output id is an input id or a rule's id, not which two inputs a merged id consumed. `Merging.ReplaceRoundTrip` states that for a single rule.
- Merging.ReplaceLength: stated for a fresh new id, where rewrites are counted as occurrences of that id in the output.
- ByteEncoding.Encode: its own contract gives the untrained, empty-text and unknown-special cases, the case of a text that is one allowed special, and the whole result when no specials are allowed. With allowed specials, the error of any text is stated by `ByteEncoding.EncodeFirstSegmentError`. The segment-by-segment result is stated by `ByteEncoding.EncodeAroundSpecial` for a text with one special occurrence, and for any text by `ByteEncoding.EncodeSpells`, which gives the string the ids spell rather than the ids themselves.

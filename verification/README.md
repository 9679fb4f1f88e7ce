# Vigenère cipher analyser, modelled in Dafny

This project models the `Vigenere` class of `core.py`: a Vigenère cipher over
the 33-letter Russian alphabet, and a cryptanalysis that breaks it. The
analysis has three stages:

- It estimates the key length with a Kasiski-style test. This finds repeated
  bigrams and trigrams, measures the distances between their occurrences,
  and scores each length from 5 to 9 by how many distances are not
  multiples of it.
- For every key position, it lists the frequent letters of that column. It
  assumes each stands for one of the common letters "аеио" and keeps the key
  symbols proposed more than twice. A symbol that wins outright goes into
  the key mask; otherwise the mask gets the wildcard `?`.
- It completes the mask from a word list and decrypts with every fitting
  word.

Modules, in dependency order:

| module | file | contents |
|---|---|---|
| `Seqs` | seqs.dfy | counted items, first-seen de-duplication, filtering, the stable sort by descending count |
| `Alphabet` | alphabet.dfy | the alphabet, letter indices, modular addition and subtraction of letters, the class constants |
| `Arith` | arith.dfy | small facts about Euclidean division used by the cipher loops and the rounding |
| `Text` | text.dfy | normalisation, `find`-based occurrence lists, space positions and re-insertion, column slicing |
| `Cipher` | cipher.dfy | `_encrypt`, `_decrypt` and their round trip |
| `Kasiski` | kasiski.dfy | `str.count`, gramms, distances, rounding, key-length choice |
| `Frequency` | frequency.dfy | letter tallies, key-symbol candidates, `_get_maxes_count`, the key mask |
| `Dictionary` | dictionary.dfy | the dictionary buckets, the wildcard filter and the words a key mask suggests |
| `Engine` | engine.dfy | `encrypt`, `decrypt`, `vigenering` and the solution record |

Python exceptions are modelled as `Failure` values of `Engine.Result`:

- `MissingBucket` stands for the `KeyError` of a dictionary lookup.
- `InvalidKey` stands for the `IndexError` raised by an empty key and the
  `ValueError` raised by a key symbol outside the alphabet.

The cipher functions themselves take the condition under which the Python
loop does not raise (`Cipher.KeyUsable`) as a precondition.

Where the threshold parameters are `None` or 0, the class constant applies,
following Python's `x or default`. The model writes both as the integer 0.
A `key_length` of 0 likewise means "find the length".

Two things in the source differ from a plain reading of its docstrings, and
the model follows the code in both:

- `_get_gramms_with_distances` looks up `gramm[0]`. Because each gramm
  arrives as a `(gramm, count)` pair, `gramm[0]` is the whole gramm and not
  its first character.
- `_get_gramms` only examines windows starting before `len(text) - n`
  (`shift + n < len(text)`), so the last window is never examined. It
  counts with the non-overlapping `str.count`, while the distances use the
  overlapping `find` loop. `Kasiski.LastWindowLost` shows the effect with a
  threshold of 1; `Kasiski.LastWindowHarmless` shows that the default
  threshold of 2 loses nothing.

## Model

| member | source | states |
|---|---|---|
| Alphabet.Add | core.py:270-271 | the sum of two letters is the letter whose index is the sum of their indices modulo 33 |
| Alphabet.Sub | core.py:273-274 | the difference is the letter whose index is the difference modulo 33; Python's negative indexing wraps like the modulus |
| Alphabet.SubAdd | core.py:270-274 | subtracting a letter undoes adding it |
| Alphabet.AddSub | core.py:270-274 | adding a letter undoes subtracting it |
| Alphabet.AddSolved | core.py:270-274 | the only letter that shifts `s` to `Add(s, c)` is `c` |
| Text.Lower | core.py:266 | lower-casing leaves every letter of the alphabet unchanged, turns every capital of the alphabet into a letter, and leaves every other character unchanged |
| Text.LowerCapitals | core.py:266 | each capital lowers to the letter in the same place of the alphabet; a character lowers to a letter exactly when it is a letter or a capital |
| Text.Prepare | core.py:261-268 | the normalised text holds only letters of the alphabet and is no longer than the input |
| Text.PrepareChar | core.py:261-268 | a single character normalises to its lower-case form when that is a letter of the alphabet, and to nothing otherwise |
| Text.PrepareAppend | core.py:261-268 | normalisation works character by character: normalising a concatenation concatenates the normalised parts |
| Text.PrepareKeepsLetters | core.py:261-268 | normalising a text that is already normalised changes nothing |
| Text.PrepareIdempotent | core.py:261-268 | normalising twice is the same as normalising once |
| Text.Find | core.py:248 | `find` returns -1 when there is no match from `start` on; otherwise it returns the lowest matching index at or after `start` |
| Text.OccurrencesFromSpec | core.py:243-255 | the occurrence list holds exactly the matching indices from `from` on, in strictly ascending order |
| Text.OccurrencesFind | core.py:246-253 | one step of the `find` loop: the occurrences are the index `find` reports, followed by those after it |
| Text.CharPositions | core.py:243-255 | the loop collects every index holding the character, each exactly once and in ascending order |
| Text.InsertChar | core.py:441-449 | every insertion adds exactly one character |
| Text.InsertSpacesLayout | core.py:441-449 | inserting spaces at the space positions of `t` lays the letters out with the spacing of `t` |
| Text.PrepareInsertSpaces | core.py:441-449 | re-inserting spaces anywhere changes nothing that normalisation keeps |
| Text.LayoutRestores | core.py:51-55 | a text of letters and spaces is rebuilt from its normalised letters and its space positions |
| Text.LayoutKeeps | core.py:57-63 | re-spacing letters keeps the space positions, and normalising removes exactly the re-inserted spaces |
| Text.Every | core.py:370-371 | `text[position::step]` is empty exactly when the start is past the end, and keeps letters letters |
| Text.EveryAt | core.py:370-371 | element `k` of the slice is text character `position + k*step` |
| Text.EveryEnd | core.py:370-371 | the slice runs to the end of the text |
| Cipher.KeyAt | core.py:282-288 | the key symbol used for letter `n` is `key[n mod |key|]`, and it is a letter |
| Cipher.Encrypt | core.py:276-289 | the loop with a wrapping key index computes the Vigenère encryption letter by letter |
| Cipher.Decrypt | core.py:291-304 | the loop with a wrapping key index computes the Vigenère decryption letter by letter |
| Cipher.RoundTrip | core.py:276-304 | decrypting with the key that encrypted returns the plaintext |
| Cipher.RoundTripInverse | core.py:276-304 | encrypting what was decrypted returns the ciphertext |
| Cipher.ColumnShift | core.py:170-172 | every column taken at key period `|key|` was enciphered with the single key symbol `key[p]`, which is why the analysis treats each column as a Caesar shift |
| Kasiski.CountWitness | core.py:323 | a positive non-overlapping count has a match with no match before it, and the rest of the count lies after that match |
| Kasiski.CountBelowOccurrences | core.py:323 | `str.count` never exceeds the number of overlapping occurrences, and is positive exactly when there is one |
| Kasiski.CountByFind | core.py:323 | `str.count` is 0 when `find` reports no match, and otherwise one more than the count resumed after the match `find` reports |
| Kasiski.Gramms | core.py:306-331 | the windows are the length-`n` slices starting before `len(text) - n`, and the threshold is the default when `None` or 0 is given: each examined window appears once with its `str.count`; the counts are at least the threshold and in descending order; every examined window that reaches the threshold is listed |
| Kasiski.LastWindowHarmless | core.py:316-325 | with a threshold of at least 2, a fragment counted that often is still found, although the last window is never examined |
| Kasiski.LastWindowLost | core.py:319 | with threshold 1 the unexamined last window is lost: "бв" occurs once in "абв" but is not listed |
| Kasiski.GapsPositive | core.py:353-357 | the gaps between strictly ascending positions are all at least 1 |
| Kasiski.GapsDetermine | core.py:353-357 | the gaps lose nothing but the start: two position lists with the same first position and the same gaps are equal |
| Kasiski.GapsSum | core.py:353-357 | the distances telescope: together they add up to the last position minus the first |
| Kasiski.SubDistances | core.py:341-360 | the `find` loop returns exactly the gaps between successive overlapping occurrences of the fragment, each at least 1 |
| Kasiski.GrammsWithDistances | core.py:334-367 | every distinct gramm is listed once with the gaps between its occurrences, and the list is sorted by descending count |
| Kasiski.RoundToDivisor | core.py:94-110 | the changed flag is set exactly for non-multiples; a multiple, or a number below the divisor, is kept; any other number becomes a different multiple of the divisor |
| Kasiski.RoundIsNearest | core.py:105-110 | the rounded number is a nearest multiple of the divisor, and the lower one on a tie |
| Kasiski.RoundListToDivisor | core.py:112-126 | each number is rounded in place, and the count equals the number of non-multiples |
| Kasiski.BestLengthFrom | core.py:160 | the length in the range with the lowest score, and the largest one among equal scores |
| Kasiski.SelectKeyLength | core.py:140-160 | the chosen length lies in 5..9, has the minimum roundings count, and no longer length scores as low |
| Frequency.ItemsRepeats | core.py:374-384 | every distinct item is listed once with its number of occurrences, in descending order of count; the counts add up to the length of the input |
| Frequency.MostRepeatable | core.py:386-391 | exactly the entries counted at least the threshold are kept |
| Frequency.MostRepeatableAppend | core.py:386-391 | the filter keeps the input order: filtering a concatenation concatenates the filtered parts, and a single entry is kept exactly when its count reaches the threshold |
| Frequency.MostRepeatableMonotone | core.py:386-391 | a higher threshold keeps a sub-list of what a lower one keeps |
| Frequency.KeySymbols | core.py:396-424 | the `i`-th candidate is the key symbol that shifts common letter `i` of "аеио" onto the ciphertext letter |
| Frequency.KeySymbolsComplete | core.py:396-424 | any key symbol that shifts common letter `i` onto the ciphertext letter is the `i`-th candidate |
| Frequency.Candidates | core.py:182-185 | a column's candidates are four per frequent letter, and all of them are letters |
| Frequency.CandidatesAt | core.py:182-185 | candidate `4k + t` is the key symbol that shifts common letter `t` of "аеио" onto frequent letter `k` of the column |
| Frequency.CandidatesExplained | core.py:182-185 | every candidate shifts some common letter onto some frequent letter of the column |
| Frequency.MaxesCount | core.py:427-429 | the count of the maximum is at least 1, and it is 1 exactly when one entry is strictly larger than all others |
| Frequency.ResolveSlot | core.py:195-200 | a slot is a letter exactly when some candidate survives and the top count is not shared; that letter is the top candidate |
| Frequency.Tallied | core.py:187-190 | exactly the candidates proposed more than twice are kept, each with its count, in descending order |
| Frequency.SlotIsUniqueTop | core.py:187-200 | a slot holds the candidate proposed strictly more often than every other and more than twice, and holds the wildcard when there is no such candidate |
| Frequency.KeyMask | core.py:169-205 | the mask has one slot per key position; a slot is the unique winning candidate of its column when there is one, the wildcard otherwise |
| Dictionary.Match | core.py:432-436 | two strings match when they agree at every common position where neither holds the wildcard |
| Dictionary.FilterForPattern | core.py:431-438 | exactly the words that match the pattern, and have the requested length if one is given, are kept |
| Dictionary.FilterForPatternAppend | core.py:438 | the list comprehension keeps the word order: filtering a concatenation concatenates the filtered parts, and a single word is kept exactly when it matches and has the length asked for |
| Dictionary.FilterForPatternExact | core.py:431-438 | with the pattern's own length, a word is kept exactly when it is that long and agrees with the pattern at every position |
| Dictionary.Bucket | core.py:227-233 | a letter's bucket holds exactly the words after the first that start with that letter |
| Dictionary.BuildDictionary | core.py:219-237 | the wildcard maps to the whole word list; letters have buckets only when there are words |
| Dictionary.FirstWordUnbucketed | core.py:227-233 | the first word never reaches its letter's bucket: for the single word "аб", the bucket of "а" is empty |
| Engine.Encrypt | core.py:51-55 | encryption fails exactly when the normalised text cannot be used with the key; otherwise the output holds one character per letter and per space, and its letters are exactly the Vigenère encryption of the normalised text, whatever capitals or punctuation the input had |
| Engine.DecryptAll | core.py:69-78 | decryption succeeds exactly when every word is usable as a key, with one entry per word; a failure names a listed word that is not usable |
| Engine.DecryptAllEntries | core.py:69-78 | on success, entry `i` pairs word `i` with the text it deciphers, spaces re-inserted |
| Engine.DecryptAllStops | core.py:69-78 | the words are tried in order: the failure names the first word that is not usable |
| Dictionary.SuggestionsMember | core.py:62-64 | a word is among the suggestions (the reference list of suggested words, in word-list order) exactly when some position of the word list holding it is suggested by the mask |
| Dictionary.CandidatesAreSuggestions | core.py:219-237 | filtering the mask's dictionary bucket gives exactly the words the mask suggests, in word-list order, each as often as it is suggested |
| Engine.DecryptMask | core.py:62-78 | a mask fails with a missing bucket exactly when its first symbol is neither the wildcard nor a letter with words behind it, and any failure names either that bucket or a suggested word that is not usable; it succeeds exactly when the bucket exists and every suggested word is usable; on success the tried keys are exactly the suggested words, in word-list order, each deciphering the text |
| Engine.Decrypt | core.py:57-85 | a plain key decrypts once or fails as invalid; a mask succeeds exactly when its bucket exists and every suggested word is usable, decrypts with exactly the suggested dictionary words in word-list order, and otherwise fails on its own bucket or an unusable word; the spaces come from the argument, or from the ciphertext when none are given |
| Engine.EncryptDecrypt | core.py:51-85 | decrypting an encrypted text of letters and spaces with the same key returns the text itself |
| Engine.DecryptWithSpaces | core.py:57-85 | decrypting the bare ciphertext letters with the plaintext's space positions returns the original text, for any text of letters and spaces |
| Engine.ChooseLength | core.py:134-165 | a given length is kept; otherwise every length from 5 to 9 is scored from the gramm statistics of the text and the one chosen has the minimum score, the largest on a tie |
| Engine.MaskOutcome | core.py:207-213 | a wildcard-free mask always decrypts, with the original spaces restored; a mask with wildcards succeeds exactly when its bucket exists and every suggested word is usable, and decrypts to exactly the suggested dictionary words; a failure names the mask's bucket or an unusable word |
| Engine.Vigenering | core.py:87-215 | the solution records the key mask read from the normalised text for the chosen length; a given length is kept, and an automatic one is the best of the scores of 5 to 9 from the text's gramm statistics; every mask slot is a letter or the wildcard; failures stem only from the dictionary |
| Engine.VigeneringOutcome | core.py:87-215 | when the key mask read from the text has no wildcard, the analysis always succeeds and the mask itself decrypts the text; with wildcards it succeeds exactly when the bucket exists and every suggested word is usable, and the keys are exactly the suggested words, each with its decryption; a failure names the mask's bucket or an unusable word |
| Engine.Solve | core.py:207-215 | the solution records the chosen length and mask; a wildcard-free mask always succeeds and decrypts the text with its own spaces restored; a mask with wildcards succeeds exactly when its bucket exists and every suggested word is usable, and then yields exactly the suggested dictionary words, each with its decryption; a failure names the mask's bucket or an unusable word |
| Engine.VigeneringRecovers | core.py:51-215 | when the analysis recovers the key of an encrypted text, the solution holds exactly the original text |
| Seqs.SortByCount | core.py:331 | the sort by descending count is a permutation of its input and keeps the sum of the counts |
| Seqs.SortByCountStable | core.py:331 | the sort is stable: the entries with any given count keep their original order |
| Seqs.Ranked | core.py:318-331 | de-duplicate, count, filter and sort: every listed entry is a counted input item that passes the filter, and every input item that passes is listed |
| Seqs.TallyAll | core.py:379-382 | the counts of the distinct items add up to the length of the sequence |

## Left out

- Reading the dictionary file and redirecting `stdout` (core.py:28-49, core.py:219-225) are I/O. The word list is a parameter.
- All printing and the trace strings stored in the solution (`gramms` info per length, `key_symbols_candidates`) are output only. They are not modelled.
- The solution record is a field of the object and accumulates across calls. The model returns a fresh record per call.
- The custom `alphabet` and `common_symbols` constructor arguments are not modelled. The class constants are fixed.
- Text.Lower: models `str.lower` only on Cyrillic capitals (А–Я, Ё). No other character lowers into the alphabet.
- Negative `key_length` values are not modelled (the parameter is a natural number). With a negative value, the Python loop builds an empty mask.
- Kasiski.RoundToDivisor: requires a positive divisor. The source only ever calls it with the lengths 5 to 9.
- `_is_word` (core.py:239-240) and `_get_key_symbol` (core.py:393-394) are never called by the modelled operations.
- app.py, the Flask web front end with the routes `/` and `/vigenere`, is not part of this model.

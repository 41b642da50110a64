# speech-lex-edit in Dafny

A model of the logic inside speech-lex-edit, a Tk tool for building a
pronunciation lexicon with help from the Sequitur G2P engine. The model
covers three parts:

- **The lexicon editor** (`lex_edit.dfy`, module `LexEdit`). The dictionary
  list box holds display strings `word | phonemes`. `save` writes them as
  lines `word phonemes`, and `load` turns lines back into items. The word list
  is loaded from a plain file. `search_listdict` finds the first item that
  matches, ignoring case. `next_selection`, `setSelection`, `add_and_next` and
  `delete_entry` move the selection and change the list. The hot keys that copy
  variants get numbers from a small formula. The Tk `Listbox` is a class with
  three fields:
  - its items;
  - its selection, as `curselection()` reports it: increasing indices;
  - its active index.
- **The G2P client** (`sequitur.dfy`, module `Sequitur`). It covers the input
  the client writes for the engine and the three loops that filter and split
  the engine's output lines:
  - pronunciation variants `(proba, phn)`;
  - the transcription from the last matching line;
  - a word-to-transcription map.

  The engine is a function parameter. It maps an invocation (model, variant
  count, scratch input, whether stderr is merged) to the lines printed, or to
  `None` when the process cannot be started.
- **The candidate ranking batch** (`select_candidates.dfy`, module
  `SelectCandidates`). It reads the vocabulary with the cutoff and scores each
  word, falling back to `occs * -10` when the engine fails. Then it sorts by
  score, highest first, with a stable sort, and formats the output lines. The
  score is a `real`. `float()`, `math.log10` and `str()` on floats are function
  parameters.

`pystr.dfy` (module `PyStr`) holds the Python string and file semantics these
rely on:
- `find`, `split(sep)`, `join`, `strip`, `lower`, `replace`;
- whitespace `split()`, `int()` and `str()` on integers;
- iterating over a text-mode file. This yields lines that keep their `\n`,
  with universal newlines turning `\r\n` and `\r` into `\n`.

`wrappers.dfy` holds `Option` and `Result`.

Some behaviours of the code are easy to misread:

- The reading loop tests `num_read > cutoff` before parsing a line, so it reads
  `cutoff + 1` entries, not `cutoff`.
- `sequitur_gen_phn_variants` passes the variant count to the engine but never
  truncates or re-sorts what comes back.
- In `process_word` only the engine call and `phns[0]` are inside the `try`.
  A probability `float()` rejects, or a count `log10` rejects (zero or
  negative), raises outside the handler and ends the whole run.
- A query starting with `^` turns on exact matching, but the `^` stays in the
  query.
- NaN is written as Python's `str()` writes it: `nan`.

## Model

| member | source | states |
|---|---|---|
| LexEdit.ListBox.Insert | speech_lex_edit.py:234 | `insert(END, x)` appends `x` and leaves the selection and active index as they were |
| LexEdit.ListBox.DeleteActive | speech_lex_edit.py:200 | `delete(ACTIVE)` removes exactly the active item if there is one; later selected indices move down one; the active index stays in range |
| LexEdit.ShiftOutMembers | speech_lex_edit.py:200 | after a deletion the selected indices are exactly the old selected indices other than the deleted one, each moved down one if it was above it |
| LexEdit.ShiftOutIncreasing | speech_lex_edit.py:200 | the shifted selection is still increasing |
| LexEdit.ShiftOutBounds | speech_lex_edit.py:200 | the shifted selection stays within the shortened list |
| LexEdit.ListBox.Activate | speech_lex_edit.py:224 | `activate(i)` makes `i`, clamped into the list, the active index and changes nothing else |
| LexEdit.ListBox.ClearSelection | speech_lex_edit.py:218 | `selection_clear` empties the selection and keeps the items and the active index |
| LexEdit.ListBox.SelectionSet | speech_lex_edit.py:225 | `selection_set(i)` adds `i` to the selection if it is a valid index, keeping that selection increasing; when this list's selection goes from empty to non-empty the other list box loses its selection (exported selection); at most one list box keeps a selection if that held before |
| LexEdit.InsertSortedMembers | speech_lex_edit.py:225 | the new selection holds exactly the old indices plus `i` |
| LexEdit.InsertSortedIncreasing | speech_lex_edit.py:225 | selecting an index keeps the selection increasing |
| LexEdit.SaveLineSplitsAtFirstBar | speech_lex_edit.py:250-255 | each item becomes the text before its first bar separator, a space, the rest of the item unchanged, and `\n` |
| LexEdit.Save | speech_lex_edit.py:245-255 | the file written is the items' lines concatenated in list order |
| LexEdit.LoadEntryAtFirstSpace | speech_lex_edit.py:262-270 | a line loses one trailing `\n`; the item is the text before the first space, the bar separator, and the rest of the line verbatim |
| LexEdit.LoadLines | speech_lex_edit.py:262-272 | the loop appends the item of each line, in order, after the existing items, leaving the selection and active index as they were |
| LexEdit.Load | speech_lex_edit.py:257-272 | existing items are kept and one item per file line is appended in file order; a missing file changes nothing; selection and active index are unchanged |
| LexEdit.LoadAfterSave | speech_lex_edit.py:245-270 | load after save reproduces the items, for words without spaces or line breaks and transcriptions without line breaks |
| LexEdit.Wordlist | speech_lex_edit.py:72-79 | the words are the file's lines without their line breaks |
| LexEdit.LoadWordlist | speech_lex_edit.py:72-79 | returns the lines of the file with one trailing `\n` dropped each, or fails when the file cannot be opened |
| LexEdit.WordlistRoundTrip | speech_lex_edit.py:72-79 | a list written one word per line loads back as the same words |
| LexEdit.MatchesRules | speech_lex_edit.py:278-288 | an item matches when, both lowered, it equals the query (exact mode) or contains it: an exact match is also a containment match, and the empty query is contained in every item |
| LexEdit.MatchesIgnoresCase | speech_lex_edit.py:277-288 | lowering the query or the item beforehand changes no match |
| LexEdit.FirstMatch | speech_lex_edit.py:274-290 | the result is -1 exactly when no item matches, otherwise the smallest index whose item matches |
| LexEdit.SearchListDict | speech_lex_edit.py:274-290 | the loop returns at the first match: the result is `FirstMatch` |
| LexEdit.DictWords | speech_lex_edit.py:312 | each searched word of the lexicon is its item up to the first bar separator |
| LexEdit.ExactMode | speech_lex_edit.py:308-310 | exact mode is on exactly when the query starts with `^`, and the `^` survives lowering the query |
| LexEdit.CaretQueryFindsOnlyCaretItems | speech_lex_edit.py:308-318 | since the `^` stays in the query, an exact search can only find an item that starts with `^` |
| LexEdit.SetSelection | speech_lex_edit.py:292-298 | afterwards `i` is the only selected item (if it is a valid index) and the active one; the items are unchanged; selecting a valid `i` clears the other list box's selection, so at most one list has a selection |
| LexEdit.SearchListboxes | speech_lex_edit.py:305-330 | both lists are searched with the same mode; a found index becomes the active item of its list; a dictionary match is the only selection left in either list, a word-list match alone is the only one left in the word list and clears the dictionary's; with no match both lists keep their selections |
| LexEdit.NextIndex | speech_lex_edit.py:208-222 | the next index is 0 or one past the last selected index, and then below the list size; for a non-empty list and non-negative selected indices it is a valid index |
| LexEdit.NextIndexWrapsAround | speech_lex_edit.py:205-222 | from a single selected item the selection moves one step forward and wraps to 0 after the last item; with nothing selected it goes to 0 |
| LexEdit.NextSelection | speech_lex_edit.py:205-229 | the returned index is `last + 1` below the last item and 0 otherwise; it becomes the only selected item and the active one; a non-empty word list takes the selection away from the dictionary list |
| LexEdit.AddAndNext | speech_lex_edit.py:232-239 | exactly one item, word, bar separator, phonemes, is appended after the unchanged earlier items; the saved file is the new list's save text; the word list moves on and, when it is not empty, the dictionary list loses its selection |
| LexEdit.DeleteEntry | speech_lex_edit.py:199-203 | exactly the active item is removed, the other selected items keep their selection at their shifted positions, the active index is clamped into the shorter list, and the saved file is the new list's save text |
| LexEdit.CopyKeyNumber | speech_lex_edit.py:186-188 | for up to ten variants a copy key is a number key from 0 to 10; it is 0 only on Darwin, for the last row |
| LexEdit.CopyKeysOfFiveVariants | speech_lex_edit.py:400-402 | with five variants the rows get the copy keys 6 to 10, with 10 becoming 0 on Darwin |
| LexEdit.CopyKeysDistinct | speech_lex_edit.py:186-188 | different rows get different copy keys |
| LexEdit.PlayAndCopyKeysApart | speech_lex_edit.py:184-188 | the play keys and copy keys never collide exactly when at most five variants are shown |
| PyStr.JoinSplit | speech_lex_edit.py:251-253 | `sep.join(s.split(sep)) == s` |
| PyStr.SplitHeadTail | speech_lex_edit.py:251-253 | `split(sep)[0]` is the text before the first separator, and joining the remaining pieces gives exactly the text after it |
| PyStr.StripSpec | sequiturclient.py:59 | `strip()` keeps the middle of the line, all that it cuts off is whitespace, and the result neither starts nor ends with whitespace |
| PyStr.StripTrimmed | sequiturclient.py:59 | a line that neither starts nor ends with whitespace is left as it is |
| PyStr.TranslateNewlines | speech_lex_edit.py:262 | universal newlines leave no `\r` in the text read and never lengthen it |
| PyStr.TranslateNoCarriageReturn | speech_lex_edit.py:262 | a text without `\r` is read unchanged |
| PyStr.ReadLines | speech_lex_edit.py:262 | the lines yielded by iterating over a text-mode file concatenate to the translated text, and none holds a `\r` |
| PyStr.SplitLines | speech_lex_edit.py:262 | the lines of a file concatenate to its text; each holds `\n` only as its last character, and every line but the last ends in one |
| PyStr.Tokens | select_candidates.py:58 | `split()` yields non-empty tokens without whitespace |
| PyStr.TokensOfWord | select_candidates.py:58 | a non-empty word without whitespace splits into that word alone |
| PyStr.TokensSplitAtSpace | select_candidates.py:58 | splitting at a whitespace character gives the tokens of the part before it followed by those of the part after it |
| PyStr.TokensPair | select_candidates.py:58 | `"a b\n".split()` is `[a, b]` for two words without whitespace |
| PyStr.ParseIntOfString | select_candidates.py:59 | `int(str(n)) == n` |
| PyStr.RemoveChar | sequiturclient.py:46 | `replace("-", "")` leaves no dash, keeps only characters of the word, and shortens it by exactly its number of dashes |
| PyStr.RemoveCharConcat | sequiturclient.py:46 | `replace("-", "")` works piece by piece, so the kept characters stay in their order |
| PyStr.RemoveCharOne | sequiturclient.py:46 | on one character, `replace("-", "")` drops a dash and keeps anything else |
| PyStr.Contains | sequiturclient.py:71 | `word in line` holds exactly when `word` occurs at some position of `line` |
| Sequitur.SubmittedWord | sequiturclient.py:45-46 | with `replaceDash` no dash remains and the word shrinks by exactly its number of dashes; otherwise it is unchanged |
| Sequitur.SubmittedWordKeepsOrder | sequiturclient.py:45-46 | with `replaceDash` the submitted word is the word with each dash dropped and every other character kept, in order |
| Sequitur.DashesNotSubmitted | sequiturclient.py:45-48 | with `replaceDash` the scratch input is the word without dashes and a newline |
| Sequitur.GenPhnVariants | sequiturclient.py:40-82 | the parsing loop builds the variants of the lines in order, matching against the word as submitted, or fails when the engine cannot start |
| Sequitur.VariantsAppend | sequiturclient.py:57-79 | the variants of two runs of lines, one after the other, are those of the first run followed by those of the second |
| Sequitur.VariantsMembers | sequiturclient.py:68-79 | a variant is in the result exactly when some output line yields it |
| Sequitur.VariantsEmpty | sequiturclient.py:41-82 | the result is empty exactly when no line is accepted |
| Sequitur.VariantsNotTruncated | sequiturclient.py:57-82 | when every line is accepted, the result has one variant per line, in order, whatever variant count was asked for |
| Sequitur.VariantOf | sequiturclient.py:59-79 | a line yields a variant only if, stripped, it contains the word and no `stack usage:`; such a line with at least four tab-separated fields always yields one, and the variant is fields 2 and 3 |
| Sequitur.VariantOfRecord | sequiturclient.py:59-79 | a record line `word TAB rank TAB proba TAB phn` yields the variant `(proba, phn)` |
| Sequitur.PhnOf | sequiturclient.py:98-114 | a line offers a transcription only if, stripped, it contains the word and no `stack usage:`; such a line with at least two tab-separated fields always offers one, and the transcription is field 1 |
| Sequitur.LastPhnIsLastAccepted | sequiturclient.py:85-121 | the result is field 1 of the last line that contains the word and has two fields, and `''` when there is none |
| Sequitur.GenPhn | sequiturclient.py:85-121 | the loop keeps the last accepted line's transcription, or fails when the engine cannot start |
| Sequitur.WordLinesRead | sequiturclient.py:129-131 | the multi-word scratch input holds exactly one line per word |
| Sequitur.EntryOf | sequiturclient.py:138-162 | a line contributes an entry only if, stripped, it holds no `stack usage:` and has at least two tab-separated fields, and the entry is (field 0, field 1) with field 0 one of the words; every such line whose field 0 is one of the words contributes one |
| Sequitur.EntryOfRecord | sequiturclient.py:138-162 | a line `word TAB phn` for one of the words contributes the entry `(word, phn)` |
| Sequitur.PhnMapKeys | sequiturclient.py:150-162 | the keys are exactly the field-0 values of accepted lines, all among the words |
| Sequitur.PhnMapLastWins | sequiturclient.py:150-162 | each value is field 1 of the last accepted line with that key |
| Sequitur.GenPhnMulti | sequiturclient.py:124-167 | writes one line per word to the input, then builds the map from the output lines, or fails when the engine cannot start |
| Sequitur.DiagnosticsSkipped | sequiturclient.py:68-69 | a line holding `stack usage:` contributes to none of the three results |
| SelectCandidates.VocabLineOfEntry | select_candidates.py:58-59 | a line `word count` parses to that word and count |
| SelectCandidates.ReadCount | select_candidates.py:53-56 | the loop parses at most `cutoff + 1` lines, and stops early only at that bound |
| SelectCandidates.ParseVocabLine | select_candidates.py:58-61 | a line that does not split into exactly two tokens is malformed; an entry carries the line's position and a non-empty word without whitespace |
| SelectCandidates.ParseEntriesSpec | select_candidates.py:54-63 | reading succeeds exactly when every line read parses; the k-th entry comes from line k; otherwise the error names the first malformed line |
| SelectCandidates.ParseEntriesStopsAt | select_candidates.py:54-59 | a malformed line ends the run, however many lines follow it |
| SelectCandidates.ParseEntriesStep | select_candidates.py:58-63 | a further line that parses appends its entry, which carries the line's position `num_read` |
| SelectCandidates.ParseEntriesIndices | select_candidates.py:58-63 | each entry carries its position `num_read` and the word and count of its two-token line |
| SelectCandidates.VocabularyBounded | select_candidates.py:53-63 | at most `cutoff + 1` entries are read, and the whole file when it is shorter |
| SelectCandidates.ReadVocabulary | select_candidates.py:53-63 | the loop with its break and the counter `num_read` computes `Vocabulary` |
| SelectCandidates.ProcessWord | select_candidates.py:38-51 | every result keeps the entry's word and count; a failure names the word |
| SelectCandidates.ProcessWordFallback | select_candidates.py:41-46 | an engine that fails or returns no variant gives score `occs * -10` and no probability |
| SelectCandidates.ProcessWordScored | select_candidates.py:48-51 | otherwise the result is `(word, (1 - p) * log10(occs), p, occs)` for the best variant's `p`; the run fails when `p` does not parse or `occs` is not positive |
| SelectCandidates.ProcessAll | select_candidates.py:66 | a successful batch has one result per entry, and a failure names the word of one of the entries |
| SelectCandidates.ProcessAllPointwise | select_candidates.py:66 | the batch succeeds exactly when every word does, and the k-th result is the k-th word's |
| SelectCandidates.SortDesc | select_candidates.py:71 | the sorted list has as many candidates as the input; its order is stated by the two rows below |
| SelectCandidates.SortDescSorts | select_candidates.py:71 | the output is sorted by descending score and is a permutation of the results |
| SelectCandidates.SortDescStable | select_candidates.py:71 | for every score, the candidates with that score keep their input order |
| SelectCandidates.FallbacksSink | select_candidates.py:46-71 | when the probability of each word's best engine variant, where it parses, lies in [0, 1], `log10` is non-negative from 1 on, and every count is positive, no fallback word is ranked above a transcribed word |
| SelectCandidates.FormatLine | select_candidates.py:74 | an output line starts with the word and a space and ends in `\n` |
| SelectCandidates.FormatLineFields | select_candidates.py:73-74 | an output line is word, score, probability and count joined by single spaces, ending in `\n`; the count parses back |
| SelectCandidates.WriteOutput | select_candidates.py:68-74 | the file is one formatted line per candidate, in order |
| SelectCandidates.RunPipeline | select_candidates.py:53-74 | read, score, sort and write compose as `Pipeline`, and the first error ends the run |

## Left out

- tts.py: speech output through MaryTTS or PicoTTS, HTTP requests and audio playback are calls into code outside this model.
- The Tk user interface is not modelled, because it is UI:
  - `start_window`, `change_g2p`, `change_g2p_textbox`, `onselect_*`, the `play*` and `copy` callbacks;
  - the dialog of `search_listboxes`, `save_and_exit`, message boxes and label updates;
  - key binding and `event_generate`.
- `backup`: its file name comes from the clock and it then only calls `save`.
- `run_command`, the subprocess, its pipes and the scratch temporary file are operating-system plumbing. The engine is a function parameter from invocation to output lines.
- UTF-8 encoding and decoding with `errors='ignore'` are not modelled. Strings are sequences of decoded characters, and `strip()` removes ASCII whitespace as `bytes.strip()` does.
- Reading and writing files: file contents are strings. A missing lexicon or word-list file is `None`. Failing to open the vocabulary or output file is not modelled.
- `print` and `logging` output, and the `quiet` flag, which only controls printing, are left out. Nothing in the three loops depends on them.
- The `try`/`except` inside `sequitur_gen_phn_multi` is not modelled. Nothing in its body raises once the line has two fields.
- joblib `Parallel` and `multiprocessing` are modelled as a sequential map. When several words fail, the model reports the first in input order, which joblib need not do.
- Floating-point arithmetic is not modelled: `float()`, `math.log10` and `str()` on floats are parameters, and scores are exact reals.
  - NaN is represented as a missing probability.
  - An `OverflowError` from `float(occs)` on huge counts is not modelled.
- `auto_save` is taken as on, its value in the program, so `add_and_next` and `delete_entry` always save.
- The Tk list box is modelled for the default selection mode. Only the calls the program makes are modelled:
  - `insert(END)`, `delete(ACTIVE)`, `activate`, `selection_set` and `selection_clear(curselection())`;
  - `selection_clear(curselection())` is modelled as clearing the whole selection. That holds for the single selected item the program ever has; Tk would reject a tuple of two or more indices as a bad index.
  - The exported selection is modelled between the two list boxes only. The text entries can also take the X selection, and the `<<ListboxSelect>>` callbacks that follow a lost selection are UI.
- Sequitur.PhnMap: a Dafny `map` has no insertion order, while Python's dict keeps it. Nothing in the core reads that order.
- PyStr.Lower: only ASCII letters are lowered; Python's `lower()` also maps other Unicode letters.
- PyStr.ParseInt: only ASCII digits, an optional sign and single underscores between digits are accepted. Python's `int()` also accepts other Unicode decimal digits and surrounding whitespace, which `split()` has already removed anyway.
- LexEdit.LoadAfterSave: the round trip is stated for words without spaces, `\n` or `\r` and transcriptions without `\n` or `\r`. A line break in either splits the saved line. `\r` is turned into `\n` when the file is read back.

# subspell: a verified model of the batching, chunking and subtitle core

subspell corrects the spelling of subtitle files (SRT and ASS/SSA) and of
free text by sending batches of text to a language-model corrector. This
project models in Dafny the deterministic parts around that corrector and
proves what they promise:

- **Token estimation, chunking and batching** (`utils.dfy`, module `Utils`):
  - `count_tokens`.
  - The greedy paragraph/sentence packer of `chunk_text`, with its overlap tails.
  - `get_overlap_text` and `merge_corrected_chunks`.
  - The greedy packer `batch_items`, with its fixed separator cost of 7 tokens.
- **The spell checker's orchestration** (`spellchecker.dfy`, module `SpellChecking`):
  - The corrector is a `Provider` object. Its answer is an arbitrary function `respond: string -> string`. It keeps a log of the prompts it was sent, so "once per batch, in order" can be stated.
  - `correct_subtitles`: fixed-size batches, the `"§SEP§"` join, the trailing-fragment fix-up and the split.
  - `correct_text`: the direct path, the chunked path and the boundary arithmetic.
  - `correct_subtitle_file`:
    - batching by tokens or by size;
    - the shrink-to-fit filter;
    - the `"§LINEBREAK§"` protection of ASS line breaks;
    - the in-place write-back into the parsed entries;
    - the default output name.
- **Subtitle formats** (`subtitle.dfy`, module `Subtitles`):
  - The SRT timestamp arithmetic.
  - `parse_srt`, as a string parser that follows its regular expression match by match.
  - The text `write_srt` emits.
  - The ASS text normalisation of `parse_ass`.
  - The dispatch on file extensions in `parse_subtitle_file` and `write_subtitle_file`.
  - The fallback branch of `write_ass`, which copies the events header of the original file.
- **The data side of the desktop window** (`gui.dfy`, module `Gui`):
  - `Subtitle` rows are a class with `line_num`, `original` and `changed` fields.
  - The placeholder encoding and decoding around the corrector.
  - The positional mapping of answers back onto rows.
  - `apply_changes`, `reject_all_changes` and `keep_original`.
  - The write-back loop of `save_file`.
- **Python built-ins** (`py_strings.dfy`, module `PyStrings`):
  - `str.split`, `str.join`, `str.replace`, `str.strip` and `str.count`.
  - `str.lower` on ASCII letters, and `os.path.splitext` with `/` as the only separator.
  - The regex character classes `\w` and `\s`, and `\d` and `str.isdigit` on ASCII digits.
  - Integer-to-string conversion, and `int()` on optionally signed runs of ASCII digits.

The loops of the source are methods whose loop invariants tie their state to a
specification function over the prefix processed so far. The properties are
lemmas about those functions:

- partition and order of batches;
- budgets;
- word preservation;
- round trips.

`correct_subtitle_file` works in place on an `array` of entries. The desktop
window's rows are objects whose fields the methods update.

Where the documented behaviour and the code differ, the model follows the code:

- The documentation says `chunk_text` returns `[text]` whenever `max_tokens` is 0 or less. The code returns `[text]` only when the text's token count is within the budget:
  - With a negative `max_tokens`, the empty text gives `[]`.
  - With a budget of 0 or less, a text with several paragraphs or sentences is still split. For example, `"a\n\nb"` gives `["a", "b"]` (`Utils.ChunkTextNonPositiveBudget`).
- `apply_changes` treats a selection whose size equals the number of rows as "apply all", whichever indices it holds.
- `keep_original` runs the same loop as `reject_all_changes`, so `Gui.RejectAllChanges` models both.
- In `correct_subtitles`, the fix-up appends `"\n"` to an answer ending in `"§SEP"` or `"§SE"`.
  - With a corrector that echoes its prompt, the batch `["a", "SEP"]` comes back as `["a", "SEP\n"]` (`SpellChecking.FixUpAltersIdentity`).
  - Only the last subtitle of a batch can be altered this way. The model's echo round trip asks of every subtitle that it be `SpellChecking.EchoSafe`: no separator starts inside it, and the separator followed by it does not end in `"§SEP"` or `"§SE"` (`SpellChecking.IntendedRoundTrip`).
  - Every text without `'§'` other than `"SE"` and `"SEP"` is EchoSafe (`SpellChecking.PlainEchoSafe`). Some texts with `'§'` are not, such as the encoding of `<*>SEP<*>` (`Gui.EchoSplitsTaggedSep`).
- Items that the shrink-to-fit filter drops from a fixed-size batch are never corrected (`SpellChecking.ShrunkTailUntouched`).

## Model

| member | source | states |
|---|---|---|
| Utils.CountTokensBound | src/subspell/utils.py:5-20 | the token count of a text is at most its length, and 0 for the empty text |
| Utils.TokensAroundSpaces | src/subspell/utils.py:18-20 | whitespace between two texts adds no tokens and merges none, so the count of `a ws b` is the sum of the two counts |
| Utils.TokensConcat | src/subspell/utils.py:18-20 | concatenating texts that do not glue two word characters together adds their token counts |
| Utils.SentencesKeepWords | src/subspell/utils.py:49 | splitting a paragraph at `(?<=[.!?])\s+` keeps its whitespace-separated words, in order |
| Utils.ParagraphsKeepWords | src/subspell/utils.py:39 | splitting the text at blank lines keeps its words, in order |
| Utils.ChunkText | src/subspell/utils.py:23-97 | chunk_text's result equals the specification ChunkTextSpec: the direct case, the packed base chunks, then the overlap step |
| Utils.PackParagraphs | src/subspell/utils.py:44-77 | the paragraph loop leaves (chunks, current chunk, current tokens) equal to folding AddParagraph over the paragraphs |
| Utils.PackSentences | src/subspell/utils.py:50-64 | the sentence loop of an oversized paragraph equals folding AddPiece with `" "` glue over its sentences |
| Utils.AddOverlap | src/subspell/utils.py:84-95 | the overlap loop keeps chunk 0 and prefixes each later chunk with the overlap text of its predecessor in the base list |
| Utils.PackingTokensExact | src/subspell/utils.py:44-77 | loop invariant of chunk_text: current_tokens always equals count_tokens(current_chunk) |
| Utils.PackingInvariant | src/subspell/utils.py:44-81 | after all paragraphs the packing is sound, and its words are the words of the paragraphs in order |
| Utils.BaseChunksNonEmpty | src/subspell/utils.py:55-81 | every base chunk is a non-empty string |
| Utils.BaseChunksWithinBudget | src/subspell/utils.py:48-77 | a base chunk exceeds max_tokens only when it is one sentence that alone exceeds max_tokens |
| Utils.BaseChunksKeepWords | src/subspell/utils.py:39-81 | the words of the base chunks, concatenated, are exactly the words of the text: nothing lost, duplicated or reordered |
| Utils.ChunkTextShape | src/subspell/utils.py:35-36 | `[text]` when the text fits; otherwise as many chunks as base chunks, chunk 0 unchanged and chunk i = overlap text of base i-1 + base i (overlap > 0), else the base chunks |
| Utils.ChunkTextNonPositiveBudget | src/subspell/utils.py:35-81 | with a budget of 0 or less, the two-paragraph text "a\n\nb" is split into ["a", "b"] rather than returned whole |
| Utils.ChunkTextKeepsWords | src/subspell/utils.py:23-97 | without overlap, the chunks carry exactly the text's words in order |
| Utils.OverlapTextWords | src/subspell/utils.py:100-115 | a text with at most n words comes back unchanged; otherwise the result's words are the last n words and it ends in one space |
| Utils.MergeCorrectedChunks | src/subspell/utils.py:118-151 | the merge loop equals Merged: "" for no chunk, the chunk itself for one, else the first chunk followed by the kept second halves of the later chunks that zip pairs with a boundary |
| Utils.MergePrefixWords | src/subspell/utils.py:140-151 | the merged text's words are the first chunk's words followed by each later chunk's words after dropping max(1, n//2) |
| Utils.MergePrefixStartsWithFirst | src/subspell/utils.py:137-151 | the merged text starts with the first corrected chunk verbatim |
| Utils.SeparatorTokens | src/subspell/utils.py:175 | the separator `"\n===SUBTITLE_SEPARATOR===\n"` costs 7 tokens |
| Utils.BatchWithCost | src/subspell/utils.py:169-216 | the batching loop equals the greedy specification GreedyBatches (large items flushed alone, close when the budget would overflow, grow otherwise) |
| Utils.BatchItems | src/subspell/utils.py:154-216 | batch_items is the greedy packer with the separator cost fixed at 7 |
| Utils.GreedyBatchesPartition | src/subspell/utils.py:169-215 | flattening the batches gives the input back in order, and no batch is empty |
| Utils.GreedyBatchesBudget | src/subspell/utils.py:175-210 | every batch is a lone large item or fits: sum of token counts + (k-1)*7 <= max_tokens |
| Utils.GreedyBatchesIsolateLarge | src/subspell/utils.py:182-191 | an item with count_tokens >= max_tokens is alone in its batch |
| Utils.GreedyBatchesFull | src/subspell/utils.py:195-201 | a batch is closed only when the next batch's first item would have overflowed it |
| Utils.JoinedBatchTokens | src/subspell/utils.py:175 | the cost batch_items charges a batch equals the token count of its texts joined by the separator |
| SpellChecking.Provider.CorrectText | src/subspell/providers/base.py:7-18 | the corrector answers respond(text) and logs the prompt |
| SpellChecking.FixedBatches | src/subspell/spellchecker.py:93-97 | fixed-size batches are consecutive slices of batch_size, the last possibly shorter, whose concatenation is the input; none for batch_size <= 0 |
| SpellChecking.SubtitleBatches | src/subspell/spellchecker.py:82-97 | token mode (batch_size 0) raises TypeError; any other size gives the fixed slices |
| SpellChecking.SpellChecker.CorrectSubtitles | src/subspell/spellchecker.py:70-122 | token mode raises TypeError without calling the corrector; otherwise each batch is joined by "§SEP§" and sent once, in order, and the answers' fixed-up parts are concatenated |
| SpellChecking.SpellChecker.CorrectBatches | src/subspell/spellchecker.py:99-122 | the batch loop sends each batch once, in order, and returns the concatenated parts |
| SpellChecking.BatchPartsCount | src/subspell/spellchecker.py:113-120 | each batch contributes exactly (occurrences of "§SEP§" in the fixed-up answer) + 1 strings |
| SpellChecking.JoinedEnd | src/subspell/spellchecker.py:113-116 | the fix-up leaves a join of several subtitles alone when the last one is neither "SE" nor "SEP" and has no '§' |
| SpellChecking.FixUpAltersIdentity | src/subspell/spellchecker.py:113-119 | the fix-up turns an echoed ["a", "SEP"] into ["a", "SEP\n"] |
| SpellChecking.PlainEchoSafe | src/subspell/spellchecker.py:107-119 | a subtitle without '§' other than "SE" and "SEP" survives the join, the fix-up and the split as an echoed batch member |
| SpellChecking.EchoSafeEnd | src/subspell/spellchecker.py:113-116 | the fix-up leaves an echoed batch alone when its last subtitle is EchoSafe |
| SpellChecking.BatchPartsIdentity | src/subspell/spellchecker.py:107-119 | with an echoing corrector, a batch of EchoSafe subtitles comes back as the same list |
| SpellChecking.CorrectedAllIdentity | src/subspell/spellchecker.py:91-122 | with an echoing corrector, every batch of EchoSafe subtitles comes back unchanged, in order |
| SpellChecking.IntendedRoundTrip | src/subspell/spellchecker.py:82-122 | with token batching repaired, an echoing corrector gives back every list of EchoSafe subtitles, in both modes |
| SpellChecking.SpellChecker.CorrectSubtitlesIntended | src/subspell/spellchecker.py:82-90 | the repaired method batches with batch_items in token mode and otherwise behaves as CorrectSubtitles |
| SpellChecking.SpellChecker.CorrectText | src/subspell/spellchecker.py:124-156 | one call with the answer verbatim when the text fits; otherwise one call per chunk_text chunk, in order, merged |
| SpellChecking.SpellChecker.CorrectChunks | src/subspell/spellchecker.py:141-145 | each chunk is sent once, in order, and the answers are kept in that order |
| SpellChecking.ChunkBoundaries | src/subspell/spellchecker.py:148-153 | one (start, end) pair per chunk: start 0 first, end - start = chunk length, next start = start + length - overlap |
| SpellChecking.CorrectTextStartsWithFirst | src/subspell/spellchecker.py:136-156 | the corrected text starts with the corrector's answer for the first chunk |
| SpellChecking.CorrectTextWords | src/subspell/spellchecker.py:140-156 | the corrected long text's words are the first answer's words followed by the kept halves of the later answers |
| SpellChecking.ShrinkToFit | src/subspell/spellchecker.py:196-207 | the while loop drops trailing items until the separator join fits or one item is left, and ShrunkEnd states exactly that end |
| SpellChecking.SpellChecker.ShrinkBatches | src/subspell/spellchecker.py:194-209 | each fixed slice is replaced by its shrunk prefix |
| SpellChecking.SpellChecker.FileBatches | src/subspell/spellchecker.py:182-209 | the file's batches are the greedy token batches, or the shrunk fixed slices |
| SpellChecking.SpansOfSlices | src/subspell/spellchecker.py:182-191 | each batch is the slice of the entry list between its span's bounds |
| SpellChecking.ShrunkTailUntouched | src/subspell/spellchecker.py:194-209 | entries dropped by shrink-to-fit are never corrected: they keep their parsed value |
| SpellChecking.ProtectBatch | src/subspell/spellchecker.py:218-221 | the texts of ASS entries in the batch get "\N" replaced by "§LINEBREAK§"; nothing else changes |
| SpellChecking.WriteParts | src/subspell/spellchecker.py:233-246 | entries with a part take the stripped part (decoded for ASS); entries beyond the part count keep their protected text |
| SpellChecking.SpellChecker.CorrectBatch | src/subspell/spellchecker.py:212-246 | one batch: protect, join, correct_text, split, write back |
| SpellChecking.CorrectSpanEffect | src/subspell/spellchecker.py:218-246 | after one batch, entries with a part are restored from it, entries past the part count keep their protected text, and entries outside the batch are unchanged |
| SpellChecking.RestoreKeepsFields | src/subspell/spellchecker.py:233-246 | the write-back changes only the text: index, times and format stay |
| SpellChecking.ProtectRestore | src/subspell/spellchecker.py:218-238 | an echoed part, with trailing whitespace, restores the entry exactly |
| SpellChecking.SpellChecker.CorrectAll | src/subspell/spellchecker.py:212-246 | the loop over the batches equals CorrectSpans, and the prompts are the batches' chunks in order |
| SpellChecking.SpellChecker.CorrectSubtitleFile | src/subspell/spellchecker.py:158-256 | the entries end up as CorrectSpans over the file's batches, and stay so whatever writing does; the result is the output path, or the exception writing raised: write_subtitle_file's own ValueError, write_srt's ValueError after a partial file, or the ASS fallback's ValueError |
| SpellChecking.DefaultOutputSplit | src/subspell/spellchecker.py:249-251 | the default output name splits into base + "_corrected" and the same extension |
| SpellChecking.DefaultOutputKind | src/subspell/spellchecker.py:249-251 | the default output name has the same subtitle format as the input |
| Subtitles.DecomposeExact | src/subspell/subtitle.py:108-110 | hours, minutes, seconds and milliseconds recompose to ms, with minutes and seconds < 60 and milliseconds < 1000 |
| Subtitles.FormatTimestampRoundTrip | src/subspell/subtitle.py:98-111 | for 0 <= ms < 100 hours the output matches `\d{2}:\d{2}:\d{2},\d{3}` and reads back as ms |
| Subtitles.FormatTimestampTooLong | src/subspell/subtitle.py:108-111 | from 100 hours on, the output is longer than the SRT pattern allows |
| Subtitles.ParseSrt | src/subspell/subtitle.py:7-37 | the match loop builds one entry per regex match, in file order, as ParsedSrt states |
| Subtitles.FindAllDigits | src/subspell/subtitle.py:17-19 | every match's number field is a digit string |
| Subtitles.WriteSrt | src/subspell/subtitle.py:114-134 | the entry loop emits `index\n`, the time line and `text\n\n` per entry, as SrtWrite states |
| Subtitles.SrtRoundTrip | src/subspell/subtitle.py:17-35 | SRT entries with a non-negative index, SRT-shaped times and non-empty, stripped text without blank lines are written without error and parse back identically |
| Subtitles.AssTimesFormatted | src/subspell/subtitle.py:127-132 | all-digit times of ASS entries are rendered through format_timestamp_for_srt |
| Subtitles.NormalizeAssText | src/subspell/subtitle.py:71-72 | after normalisation no backslash-n is left and no "{" is followed by a "}" |
| Subtitles.NormalizePlain | src/subspell/subtitle.py:71-72 | text without "\\" or "{" is left unchanged |
| Subtitles.AssEntries | src/subspell/subtitle.py:66-95 | ASS entries are numbered from 1, tagged "ass", and carry normalised text |
| Subtitles.KindOfExtension | src/subspell/subtitle.py:255-265 | the lower-cased extension decides: .srt is SRT, .ass/.ssa is ASS, whatever the case |
| Subtitles.KindOfNoExtension | src/subspell/subtitle.py:255-265 | a path without an extension is refused |
| Subtitles.ParseSubtitleFile | src/subspell/subtitle.py:245-265 | .srt files go through parse_srt; unsupported extensions raise ValueError |
| Subtitles.WriteSubtitleFile | src/subspell/subtitle.py:268-298 | an empty list or an unsupported extension raises ValueError; .srt goes through write_srt; an .ass/.ssa output for entries without pysubs2 events succeeds exactly when there is an original path and its text is non-empty with an events header |
| Subtitles.SrtWriteFails | src/subspell/subtitle.py:122-129 | an entry with a digit start and a non-numeric end makes write_srt raise ValueError after writing the entry's number |
| Subtitles.EventsHeader | src/subspell/subtitle.py:203-209 | the fallback's header is a non-empty prefix of the original text ending in a line break |
| Subtitles.EventsHeaderFound | src/subspell/subtitle.py:203-207 | the header regex matches exactly when "[Events]", then "Format:", then a line break occur in that order |
| Subtitles.NoEventsNoHeader | src/subspell/subtitle.py:203-207 | an original without "[Events]", such as a typical SRT file, has no header, so the fallback raises |
| Subtitles.AssFallback | src/subspell/subtitle.py:198-242 | the fallback raises ValueError exactly when the original text is empty or has no events header; otherwise it writes the header and the entries' lines |
| Subtitles.WriteAssFallback | src/subspell/subtitle.py:198-242 | the fallback's loop writes what AssFallback states: the header, then one Dialogue line per entry, in order |
| Subtitles.SrtFileRoundTrip | src/subspell/subtitle.py:245-298 | entries saved under a .srt name parse back from the written text unchanged |
| Gui.NewRow | src/subspell/gui.py:41-49 | an empty correction is replaced by the original; a row is changed exactly when the correction is non-empty and differs |
| Gui.Subtitle.constructor | src/subspell/gui.py:35-44 | a new Subtitle holds the row NewRow describes |
| Gui.LoadSubtitles | src/subspell/gui.py:814-816 | loaded rows are numbered from 1 and unchanged, with each entry's text as original and correction |
| Gui.DecodeEncode | src/subspell/gui.py:967-970 | for text without '§', decoding the encoding gives the text back |
| Gui.DecodeEncodeAnswer | src/subspell/gui.py:981-985 | a stripped text without '§', echoed with whitespace before and after it, decodes to itself under the one-pass decoding |
| Gui.DecodeAsWrittenBreaks | src/subspell/gui.py:981-985 | the source's decode order turns the echoed encoding of `<*>LINEBREAK\N` into `§TAG\NLINEBREAK§` |
| Gui.MapRows | src/subspell/gui.py:978-996 | each answer is decoded by the decoder passed in; answer i < number of rows keeps that row's line number and original and proposes its decoding, an empty decoding proposing no change; surplus answers become new unchanged rows numbered i+1; rows without an answer are dropped |
| Gui.MapRowsAsWrittenBreaks | src/subspell/gui.py:978-990 | with the window's two-pass decoding, the echoed answer for the row `<*>LINEBREAK\N` proposes the change `§TAG\NLINEBREAK§`; with the one-pass decoding the row stays as it was |
| Gui.MapResults | src/subspell/gui.py:978-1003 | the mapping loop builds fresh rows as MapRows states for the decoder passed in; when correct_subtitles raised (in the model, only the TypeError of token mode), that exception is the result instead, as the window's handler records it |
| Gui.RunSpellCheck | src/subspell/gui.py:959-1005 | the window's spell check, with its own two-pass decoding, always ends in the TypeError of token-mode correct_subtitles, without calling the corrector |
| Gui.RunSpellCheckIntended | src/subspell/gui.py:966-998 | with both repairs (token batching as batch_items intends, and the one-pass decoding): encode, batch, correct once per batch in order, and map the answers onto the rows |
| Gui.MapRowsEcho | src/subspell/gui.py:966-996 | with both repairs and an echoing corrector, rows whose texts have no '§' or surrounding whitespace and whose encodings are EchoSafe come back unchanged: same line number and original, no pending change |
| Gui.EchoSplitsTaggedSep | src/subspell/gui.py:966-970 | the text `<*>SEP<*>` has no '§' or surrounding whitespace, yet its encoding `§TAG§SEP§TAG§`, echoed, splits into two answers, so MapRowsEcho needs its EchoSafe condition |
| Gui.ApplyRows | src/subspell/gui.py:1263-1274 | a selection as large as the rows applies every row; otherwise exactly the selected rows in range get original := changed |
| Gui.ApplyChanges | src/subspell/gui.py:1257-1274 | the rows after the loop are ApplyRows of the rows before |
| Gui.RejectRows | src/subspell/gui.py:541-542 | every row's correction becomes its original, so no row is changed |
| Gui.RejectAllChanges | src/subspell/gui.py:539-549 | the rows after the loop are RejectRows of the rows before (reject_all_changes and keep_original) |
| Gui.ApplyAfterReject | src/subspell/gui.py:1263-1274 | applying after rejecting changes nothing |
| Gui.RejectAfterApplyAll | src/subspell/gui.py:1263-1269 | after applying everything, rejecting changes nothing |
| Gui.WriteRow | src/subspell/gui.py:1032-1034 | a row with 1 <= line_num <= len writes its correction into entry line_num-1; line_num <= 0 indexes from the end, and at or below -len (below 1 - len) it raises IndexError; a larger line_num is skipped |
| Gui.SaveWriteBack | src/subspell/gui.py:1029-1034 | the write-back loop leaves the entries as WriteRows states and stops at the first IndexError |
| Gui.WriteRowsKeepsFields | src/subspell/gui.py:1031-1034 | the write-back changes only texts: indices, times and formats stay |
| Gui.WriteRowsNumbered | src/subspell/gui.py:1031-1034 | rows numbered 1..n write their corrections into the first n entries, and the other entries are untouched |
| Gui.SaveAfterLoad | src/subspell/gui.py:814-816 | saving right after loading gives the parsed entries back |
| Gui.SaveAfterEcho | src/subspell/gui.py:966-1034 | load, the repaired spell check with an echoing corrector, then save gives the parsed entries back, when no text has '§' or surrounding whitespace and every encoding is EchoSafe |
| PyStrings.SplitJoin | src/subspell/spellchecker.py:107-119 | splitting a join on its separator gives the parts back when no occurrence of the separator starts inside a part (for instance, when no part contains its first character) |
| PyStrings.SplitExtJoin | src/subspell/spellchecker.py:250 | splitext of a stem plus an extension gives the two back |
| PyStrings.SplitExtLower | src/subspell/subtitle.py:255 | splitting the extension commutes with lower-casing |

## Left out

- The language-model corrector is an arbitrary function `respond`. The Gemini client and provider selection (`_get_provider`) are not part of this model. Neither are the prompt and the sampling parameters, which are only passed through.
- File I/O is not modelled. Reading the subtitle file is the `content` parameter. What pysubs2 loads from an ASS/SSA file is the `assEvents` parameter. The writers return text or an outcome instead of writing.
- The pysubs2 branch of `write_ass` (subtitle.py:149-196) and the pysubs2 parts of `parse_ass` are foreign-library code. For entries from `parse_ass`, `Subtitles.WriteSubtitleFile` only says that this writer runs (`AssFromEvents`). The fallback branch (subtitle.py:198-242) is modelled, with the original file's text as the `originalContent` parameter.
- Subtitles.AssFallback: every entry is written with the simple Dialogue line built from its times and text. The source uses `raw_text` and `line_data` when an entry has them. Only entries from `parse_ass` carry `raw_text`, and `line_data` is never set; a list whose first entry comes from `parse_ass` takes the pysubs2 branch instead.
- SpellChecking.SpellChecker.CorrectSubtitleFile: failures of the pysubs2 writer, and errors from opening, reading or writing files, are not modelled; the model reports success where such a failure would propagate.
- Subtitles.Entry: the `line`, `parent_file` and `original_filepath` dictionary fields are not modelled. The writer takes the original path as a parameter.
- The regex class `\w` is approximated: ASCII letters, digits, `_`, Latin-1 letters and Cyrillic. The proofs rely only on `\w` and `\s` being disjoint, and on the class of a few ASCII characters and of `§`.
- The Tk user interface is not modelled. This covers widgets, dialogs, theming, the float row-height maths and dark-mode detection. The worker thread and busy-wait of `check_spelling` are concurrency and are not modelled either.
- `change_type` and `get_diffs` depend on `difflib`, which is not part of this model.
- Gui.ApplyChanges: the selection is a set of natural numbers. Negative indices, which Python would read from the end, are not modelled.
- Gui.ApplyChanges: it requires the rows to be distinct objects. Shared `Subtitle` objects are not modelled.
- Gui.SaveWriteBack: the file-name dialog and the final `write_subtitle_file` call are not part of it. They are modelled separately in `Subtitles.WriteSubtitleFile`.
- A corrector that raises is not modelled: `respond` always answers. In the source such an exception propagates out of `correct_subtitles`, `correct_text` and `correct_subtitle_file`. In `correct_subtitle_file` the batches already written back into the entries then stay changed and no file is written. The window's worker records the exception (gui.py:1000-1004), and the window then shows it (gui.py:903-908). The only error the model carries is the TypeError of token mode.
- PyStrings.ParseInt: it accepts only an optional sign followed by ASCII digits. Python's `int()` also accepts surrounding whitespace, underscores between digits and non-ASCII decimal digits.
- PyStrings.IsDigitString: it is `str.isdigit` on ASCII digits only. Python's `isdigit` is also true for other Unicode digits, such as `"²"`, on which `int()` then raises, so `write_srt` (subtitle.py:127-129) would fail where the model formats a timestamp.
- PyStrings.IsDigit: the regex class `\d` is taken as the ASCII digits. Python's `\d` also matches other Unicode decimal digits.
- PyStrings.Lower: it lower-cases ASCII letters only. Python's `str.lower` also lower-cases non-ASCII letters.
- PyStrings.SplitExt: it takes `/` as the only path separator, as POSIX `os.path.splitext` does. On Windows `\` also separates components, and a drive prefix is not modelled.
- Logging, the CLI argument parsing and the configuration file are not modelled.
- Timing and progress messages are not modelled.

## Findings

| source | as written | input that shows it | evidently intended | confidence | as-written member | corrected member |
|---|---|---|---|---|---|---|
| src/subspell/spellchecker.py:84-89 | token mode calls `batch_items` with four positional arguments, but it takes three (utils.py:154-156), so every call with batch_size 0 raises TypeError; this includes the window's spell check, which passes 0 | any subtitle list with batch_size 0 | batch the subtitles with `batch_items` on their texts and correct each batch | not executed | SpellChecking.SpellChecker.CorrectSubtitles | SpellChecking.IntendedRoundTrip |
| src/subspell/gui.py:981-985 | the answer is decoded by first replacing "§LINEBREAK§" with "\N" and then "§TAG§" with "<*>"; the first pass can match a "§LINEBREAK§" formed by the closing '§' of a "§TAG§" placeholder and the text after it, which destroys that placeholder | the subtitle text `<*>LINEBREAK\N` with a corrector that changes nothing decodes to `§TAG\NLINEBREAK§` | decoding gives back every text without '§' (both placeholders undone in one left-to-right pass) | not executed | Gui.DecodeAsWrittenBreaks | Gui.DecodeEncodeAnswer |

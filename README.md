# comment-cleaner in Dafny

A verified model of the cleaning core of the comment-cleaner notebook (`app.py`). That core has three parts.

- **The `CommentCleaner` object.** It cleans social-media comment exports one cell at a time:
  - regular-expression transformers strip emoji, URLs, @mentions, #hashtags, repeated punctuation and excess whitespace;
  - row predicates recognise blank and emoji-only cells;
  - a quality gate rejects comments that are too short or contain no ASCII letter, and counts each rejection by category;
  - a pipeline (`clean_dataset`) runs all of this over a data frame and records removal counters and statistics.
- **Column detection** (`detect_comment_column`).
- **The export arithmetic** of the notebook's last cells:
  - the upload's extension;
  - the `_cleaned` base name;
  - the split decision;
  - the ceiling-divided chunk ranges and part-file names.

Modules:

- `Wrappers`: `Option` and `Result`.
- `Seqs`: filter, map, boolean selection, runs, subsequences.
- `Chars`: the character classes of the regular expressions, and ASCII lower-casing.
- `Transformers`: the six cell transformers. `re.sub` is modelled as Python performs it: a leftmost scan that deletes each match and resumes after it.
- `Quality`: `is_blank_or_empty`, `is_only_emojis`, the ordered validity checks and the removal counters.
- `Columns`: `detect_comment_column`.
- `Cleaner`: the data frame, the pipeline as functions of the input rows, and the `CommentCleaner` class. Its methods `IsValidComment`, `ValidateColumn`, `Screen`, `Gate`, `Process` and `CleanDataset` update the counters and the statistics in place and are proved against those functions.
- `Export`: file names, part numbers and the chunked export loop.

Facts about `app.py` that the model keeps:

- The minimum length is the fixed `min_length`, by default the one given to the constructor.
- "Only special characters" is the ASCII test `^[^a-zA-Z]+$`.
- The transformer order is emoji, URL, mention, hashtag, punctuation, whitespace.
- The checks run in the order blank, too short, only special characters.
- Blanks dropped before cleaning (app.py:177) are not added to `blank_empty`.
- `only_emojis` is assigned, not incremented.

Character classes:

- `\s` is Python's whitespace set, written out.
- `\w` and "is part of an emoji" are parameters: a `CharClasses` value of two predicates. Every property holds for any choice of them, except that `TagSurvives`, `TagDeleted` and `TagCutBeforeMarker` assume the tag marker itself is not a word character, as holds for '@' and '#'.
- `str.lower()` is ASCII lower-casing. That is exact for the comparisons made here ("text", "comment", "csv", "xlsx", "xls").

## Model

| member | source | states |
|---|---|---|
| Transformers.StripEmoji | app.py:50 | the result is a subsequence of the text that holds every non-emoji character as often as the text does and no emoji character |
| Transformers.RemoveEmojis | app.py:45-50 | a missing cell stays missing; a present one loses exactly its emoji characters (every occurrence of them) and keeps every other character, as often as it occurs and in order |
| Transformers.MatchLen | app.py:58 | the greedy `+` of a match: it runs past the literal head over body characters only, and stops at the end or at a non-body character |
| Transformers.Scrub | app.py:58 | definition of the leftmost-match deletion; properties in `ScrubSubseq`, `ScrubFixpoint`, `ScrubKeepsPrefix`, `ScrubSplit` |
| Transformers.ScrubSubseq | app.py:58 | deleting every leftmost match only ever deletes characters: the result is a subsequence of the input |
| Transformers.ScrubFixpoint | app.py:58 | text in which the pattern matches nowhere is returned unchanged |
| Transformers.ScrubStartsClean | app.py:58 | a deleted match always leaves a non-body character (or the end) behind it |
| Transformers.ScrubAgrees | app.py:58 | the scrubbed text agrees with the original on its leading run of body characters |
| Transformers.ScrubKeepsPrefix | app.py:58 | text from none of whose positions a match starts, even with what follows it, is kept whole and the scan continues after it |
| Transformers.ScrubSplit | app.py:58 | when no match can straddle a cut in the text, the two sides are cleaned independently and concatenated |
| Transformers.SchemeLen | app.py:57 | `http[s]?://` at the start: 8 exactly when the text starts with "https://", 7 exactly when it starts with "http://", 0 otherwise, never longer than the text |
| Transformers.SchemeIsUrlChars | app.py:57 | every character of a scheme is itself a URL character |
| Transformers.UrlMatchByPrefix | app.py:57 | whether a URL starts at a position depends only on the scheme and the first character after it |
| Transformers.StripUrls | app.py:58 | definition of `re.sub(url_pattern, '', s)`; properties in `UrlsGone`, `UrlDeleted`, `BareSchemeSurvives` |
| Transformers.UrlsGone | app.py:52-58 | after URL removal no "http://" or "https://" followed by a URL character remains anywhere, not even one formed by joining the text around a deleted URL |
| Transformers.SchemeOfLiteral | app.py:57 | a literal "http://" or "https://" is its own scheme, and none of its proper suffixes starts one |
| Transformers.SchemeKept | app.py:57-58 | a bare scheme with no URL character after it is kept verbatim |
| Transformers.UrlCutAfterNonUrl | app.py:57-58 | text ending in a non-URL character is cleaned independently of what follows it |
| Transformers.SchemeBeforeH | app.py:57 | appending text that starts with 'h' cannot complete a scheme begun earlier, because 'h' occurs in "http://" and "https://" only at the front |
| Transformers.OpenUrlFreePrefix | app.py:57-58 | text in which no URL starts and no scheme is still open at its end is kept whole when a scheme follows it |
| Transformers.BeforeScheme | app.py:57-58 | the text before a scheme, split after its last non-URL character, is cleaned as that first part on its own followed by the rest kept whole, provided the rest holds no URL and no open scheme |
| Transformers.BareSchemeSurvives | app.py:52-58 | a bare "http://" or "https://" not followed by a URL character survives URL removal. The text before it may end in URL characters ("Link:", "id="), provided no URL or scheme in it is still open where the bare scheme begins; that text and the text after the scheme are cleaned on their own |
| Transformers.UrlDeleted | app.py:52-58 | a scheme followed by a maximal run of URL characters is deleted whole and nothing else is. The text before it may end in URL characters ("Link:https://a.b c", "(https://a.b)", "abchttp://a.b"), provided no URL or scheme in it is still open where the URL begins; that text and the text after the URL are cleaned on their own |
| Transformers.RemoveUrls | app.py:52-58 | a missing cell stays missing; a present one becomes a subsequence with no URL left; text without a URL is returned unchanged; by `UrlDeleted` and `BareSchemeSurvives`, a URL is deleted whole and a bare scheme kept, with the text around them untouched except where it holds URLs of its own |
| Transformers.NoTagIsNoMatch | app.py:65 | "no marker is followed by a word character" is exactly "the pattern `marker\w+` matches nowhere" |
| Transformers.StripTags | app.py:65 | definition of `re.sub(marker + r'\w+', '', s)`; properties in `TagsGone`, `TagDeleted`, `TagSurvives` |
| Transformers.TagsGone | app.py:60-72 | after tag removal no marker is followed by a word character |
| Transformers.TagSurvives | app.py:60-72 | a marker not followed by a word character survives, and the text on either side is cleaned on its own |
| Transformers.TagDeleted | app.py:60-72 | a marker followed by a maximal run of word characters is deleted whole, and the text on either side of it is cleaned on its own, so nothing but the tag is removed |
| Transformers.RemoveTagsFrom | app.py:60-72 | the result is a subsequence of the text with no tag left; a text without a tag (in particular one without the marker) is returned unchanged; with `TagDeleted` and `TagSurvives`, only tags are deleted |
| Transformers.RemoveMentions | app.py:60-65 | the same for `@\w+` on a nullable cell; a missing cell stays missing |
| Transformers.RemoveHashtags | app.py:67-72 | the same for `#\w+` on a nullable cell; a missing cell stays missing |
| Transformers.SqueezeShape | app.py:87 | after squeezing, no three characters of `[!?.]` stand in a row, and a leading long run is cut down to one character |
| Transformers.SqueezeFixpoint | app.py:87 | text without a run of three is left untouched, so squeezing is idempotent |
| Transformers.SqueezeLongRun | app.py:87 | a run of three or more `!?.` characters becomes its last character, the group's final capture |
| Transformers.SqueezeAppend | app.py:87 | squeezing works piecewise across a cut that is not inside a run, so shorter runs and all other characters are kept |
| Transformers.Squeeze | app.py:87 | definition of `re.sub(r'([!?.]){3,}', r'\1', s)`; properties in `SqueezeShape`, `SqueezeFixpoint`, `SqueezeLongRun`, `SqueezeAppend` |
| Transformers.RemoveSpecialChars | app.py:82-88 | a missing cell stays missing; a present one has no run of three afterwards; text without such a run is returned unchanged, so the function is idempotent |
| Transformers.Strip | app.py:80 | `str.strip()`: empty iff the text is all whitespace, otherwise neither end is whitespace; never longer |
| Transformers.Squash | app.py:79 | definition of `re.sub(r'\s+', ' ', s)`; properties in `SquashShape`, `SquashRun`, `SquashSplit`, `SquashKeepsVisible` |
| Transformers.SquashShape | app.py:79 | after `re.sub(r'\s+', ' ')` every whitespace character is a single ' ' |
| Transformers.SquashFixpoint | app.py:79 | text whose whitespace is single spaces is unchanged by the collapse |
| Transformers.SquashKeepsVisible | app.py:79 | collapsing whitespace keeps every non-whitespace character, in order |
| Transformers.SquashSplit | app.py:79 | collapsing works piecewise across a cut that is not inside a whitespace run |
| Transformers.SquashRun | app.py:79 | a whole whitespace run becomes exactly one ' ', and the text on either side is collapsed on its own |
| Transformers.StripNormalizes | app.py:79-80 | collapse then strip leaves no whitespace at either end and only single ' ' between non-space characters |
| Transformers.StripFixpoint | app.py:80 | text with no whitespace at either end is not changed by `strip` |
| Transformers.StripSlice | app.py:80 | `strip` cuts only whitespace from both ends and keeps the middle |
| Transformers.StripKeepsVisible | app.py:80 | `strip` keeps every non-whitespace character, in order |
| Transformers.StripUnique | app.py:80 | `strip` keeps exactly the slice between a whitespace prefix and a whitespace suffix that cannot be extended |
| Transformers.StripJoin | app.py:80 | stripping two pieces joined by one space, with visible characters next to the space, strips each piece |
| Transformers.SquashKeepsNoLongRun | app.py:79 | collapsing whitespace cannot join punctuation into a run of three |
| Transformers.NormalizeKeepsNoLongRun | app.py:79-80 | whitespace cleaning keeps the no-run-of-three guarantee of the step before it |
| Transformers.NormalizeFacts | app.py:79-80 | collapse then strip always gives normalized text with the same non-whitespace characters |
| Transformers.NormalizeFixpoint | app.py:79-80 | already-normalized text comes back unchanged from collapse then strip |
| Transformers.NormalizeSplit | app.py:79-80 | a whitespace run between two visible characters becomes exactly one ' ', and the text on either side is cleaned on its own |
| Transformers.NormalizeSpaces | app.py:79-80 | the result is normalized, keeps the same non-whitespace characters, equals already-normalized input, and keeps the no-run-of-three guarantee; with `NormalizeSplit`, each inner whitespace run becomes exactly one space |
| Transformers.CleanWhitespace | app.py:74-80 | a missing cell stays missing; a present one is normalized with the same visible characters, each inner whitespace run becoming one space (`NormalizeSplit`); normalized text is returned unchanged |
| Transformers.CleanWhitespaceIdempotent | app.py:74-80 | cleaning whitespace twice gives the same as once |
| Quality.StripEmptyIff | app.py:96 | `strip()` is empty exactly when the text is all whitespace |
| Quality.IsBlankOrEmpty | app.py:90-98 | true exactly for a missing cell or one of whitespace only (including empty) |
| Quality.IsOnlyEmojis | app.py:100-105 | true exactly for a present cell whose every character is emoji or whitespace; false for a missing cell |
| Quality.MatchesNonLettersIff | app.py:123 | `^[^a-zA-Z]+$` matches exactly the non-empty texts without an ASCII letter |
| Quality.Classify | app.py:107-127 | the gate's checks in order: blank iff missing or all whitespace; too short iff the strip is shorter than the minimum; only special characters iff long enough with no ASCII letter; kept iff present, non-blank, long enough and with a letter; never "only emojis" |
| Quality.Tally.Bump | app.py:110 | one counter goes up by one and the others stay |
| Quality.Tally.Record | app.py:109-127 | a rejection raises exactly its own counter by one; a kept cell raises none |
| Quality.Tallied | app.py:211 | definition of the counters after judging cells in order; properties in `TalliedCounts`, `Cleaner.OutcomeCounts` |
| Quality.TalliedCounts | app.py:211-212 | over any cells, the gate's rejections plus the kept cells equal the cells judged, and `only_emojis` is never touched by the gate |
| Quality.RecordCounts | app.py:109-127 | one verdict changes the rejection total by one exactly when it rejects |
| Columns.IndexOf | app.py:134 | `list.index`: the first position holding the value, absent exactly when the value is absent |
| Columns.DetectCommentColumn | app.py:129-142 | the original-case name of the first column lower-casing to "text"; failing that, of the first lower-casing to "comment"; `None` exactly when neither exists |
| Cleaner.ResolveColumn | app.py:154-161 | a requested column succeeds iff it exists and otherwise reports it not found; with no request, the detected column, or "could not auto-detect" |
| Cleaner.CleanCell | app.py:190-205 | the transformer chain keeps missing cells missing, always yields normalized text without a run of three, and with every switch off leaves already-clean text unchanged |
| Cleaner.RetentionRate | app.py:221 | `final_count / original_count * 100` exactly (rate times the original count is 100 times the final count), 0 for an empty input, a percentage between 0 and 100, and 100 when nothing was removed |
| Cleaner.StatsOf | app.py:216-222 | the original, after-blank-removal and final counts are the ones given, the rate is `RetentionRate` of the final and original counts, and `final_count + total_removed == original_count` |
| Cleaner.CommentCleaner.constructor | app.py:35-43 | the minimum length is stored (by default `DefaultMinLength`, 10), the statistics are empty and every counter is 0 |
| Cleaner.CommentCleaner.IsValidComment | app.py:107-127 | returns the gate's verdict and raises exactly the counter of the failed check |
| Cleaner.CommentCleaner.ValidateColumn | app.py:211 | judges every cell in order; the flags are the gate's verdict on each cell and the counters are those of judging the cells one after another |
| Cleaner.CommentCleaner.Screen | app.py:176-187 | drops the blank rows, then, with emoji removal on, the emoji-only rows; `blanks_removed` is the number of blank rows; `only_emojis` is set to the number of emoji-only rows and no other counter changes |
| Cleaner.CommentCleaner.Gate | app.py:189-213 | keeps exactly the rows whose cleaned comment passes the gate, in order, and adds the verdicts on the cleaned cells, in row order, to the counters |
| Cleaner.CommentCleaner.Process | app.py:166-228 | from reset counters, returns the input's columns with the cleaned surviving rows and sets the counters to the pipeline outcome and the statistics to its summary |
| Cleaner.CommentCleaner.CleanDataset | app.py:144-228 | by default the column is detected and the switches are `DefaultOptions` (emoji and URL removal on, mention and hashtag removal off); raising leaves the counters and statistics untouched; otherwise it returns the input's columns with the cleaned surviving rows, sets the counters to the pipeline outcome and the statistics to its summary |
| Cleaner.BlanksAreBlankRows | app.py:177-178 | `blanks_removed` counts exactly the rows whose comment is missing or whitespace only |
| Cleaner.ScreenedCount | app.py:181-186 | the emoji-only filter removes exactly `only_emojis` rows |
| Cleaner.OutcomeCounts | app.py:211-215 | the gate's rejections plus the final rows equal the rows it judged, and `only_emojis` is as set before the gate |
| Cleaner.RowAccounting | app.py:166-228 | `original_count - final_count == blanks_removed + only_emojis + blank_empty + too_short + only_special_chars` |
| Cleaner.CleanedRowsInOrder | app.py:177-228 | the output is the surviving input rows in their original order, each rewritten only in its comment cell |
| Cleaner.SurvivorsWithEmojiFilter | app.py:177-212 | with emoji removal on, the blank, emoji-only and gate filters in sequence keep exactly the rows passing all three tests |
| Cleaner.SurvivorsWithoutEmojiFilter | app.py:177-212 | with emoji removal off, the blank and gate filters in sequence keep exactly the rows passing both tests |
| Cleaner.GateSelects | app.py:211-212 | indexing the frame by the `is_valid` flags keeps exactly the rows whose cleaned comment the gate accepts |
| Cleaner.RewriteKept | app.py:225-226 | a kept row keeps its columns and holds an acceptable cleaned comment |
| Cleaner.ScreenedRowsAreInput | app.py:177-186 | every row reaching the gate is an input row |
| Cleaner.CleanedCells | app.py:211-228 | every returned row has exactly the input's columns (the helper columns are gone) and a present, normalized comment, at least the minimum length, without a run of three, holding an ASCII letter |
| Cleaner.SummaryConsistent | app.py:216-222 | the statistics agree: final ≤ after blank removal ≤ original, final plus removed is the original, and the rate is a percentage |
| Cleaner.Screened | app.py:177-187 | definition of the rows the gate sees; properties in `BlanksAreBlankRows`, `ScreenedCount`, `ScreenedRowsAreInput` |
| Cleaner.Rewrite | app.py:190-205 | definition of the row with its comment replaced by the cleaned text; properties in `RewriteKept`, `CleanedRowsInOrder` |
| Cleaner.CleanedRows | app.py:177-226 | definition of the returned rows; properties in `CleanedRowsInOrder`, `CleanedCells`, `RowAccounting` |
| Cleaner.Outcome | app.py:169-215 | definition of `removed_rows` at the end; properties in `OutcomeCounts`, `RowAccounting` |
| Cleaner.Summary | app.py:216-222 | definition of `cleaning_stats`; properties in `StatsOf`, `SummaryConsistent` |
| Export.LastIndexOf | app.py:274 | the position of the last separator, absent exactly when there is none |
| Export.Split | app.py:274 | `str.split`: at least one piece, and no piece contains the separator |
| Export.Join | app.py:397 | definition of `sep.join(parts)`; properties in `JoinSplit`, `BaseFilenameIs` |
| Export.JoinSplit | app.py:397 | joining the pieces of a split with the same separator gives the text back |
| Export.FileExtension | app.py:274 | the extension never contains a dot |
| Export.FileExtensionIs | app.py:274 | the extension is the lower-cased text after the last dot, or the whole lower-cased name when there is none |
| Export.ChooseLoader | app.py:281-291 | CSV for "csv", Excel for "xlsx" and "xls" (openpyxl only for "xlsx"), and the unsupported-format error naming the extension otherwise |
| Export.BaseFilename | app.py:397 | the base name always ends in "_cleaned" |
| Export.BaseFilenameIs | app.py:397 | the base name is the file name up to its last dot plus "_cleaned", or just "_cleaned" when there is no dot |
| Export.NatToString | app.py:414 | the decimal text of a number is non-empty and all digits, starts with '0' only for zero, and is one digit exactly below 10 |
| Export.ParseNatToString | app.py:414 | the decimal text reads back as the same number |
| Export.PartCount | app.py:401 | the ceiling of `total / CHUNK_SIZE`: enough parts to hold every row and no empty last part; 0 only for no rows |
| Export.PartName | app.py:414 | definition of `f"{base_filename}_part{i+1}.xlsx"`; properties in `PartNameInjective` |
| Export.ChunkAt | app.py:409-414 | definition of part `i` and its row range; properties in `ChunksPartition`, `ChunkNamesDistinct` |
| Export.Chunks | app.py:401-414 | definition of all parts of a split export; properties in `ChunksPartition`, `ChunkNamesDistinct`, `ExportFiles` |
| Export.PartNameInjective | app.py:414 | different part numbers give different file names |
| Export.ChunksPartition | app.py:400-418 | the ranges start at 0, end at the total, are non-empty, hold at most CHUNK_SIZE rows, follow one another without gap or overlap, and row `r` lies in part `r // CHUNK_SIZE` |
| Export.ChunkNamesDistinct | app.py:414 | no two parts share a file name |
| Export.SplitChoice | app.py:352-361 | splitting is chosen only above CHUNK_SIZE rows, and above it exactly when the stripped reply is "1" |
| Export.ExportFiles | app.py:392-442 | with more than CHUNK_SIZE rows and splitting on, the files are exactly the chunk parts in order; otherwise one file `base.xlsx` with all rows |

## Left out

- Notebook I/O is not part of this model: the package install, the upload and download, `read_csv`/`read_excel`, `to_excel`, the previews and every `print` (including `print_stats`). `Export.ExportFiles` returns the names and row ranges it would write, and `Export.ChooseLoader` returns which reader would be used.
- The `input()` prompt is a parameter: `Export.SplitChoice` takes the reply text.
- Transformers.StripEmoji: the `emoji` library recognises multi-character emoji sequences. Here "is emoji" is a per-character predicate supplied by the caller, and the properties hold relative to it.
- The Unicode tables behind `\w` are not reproduced. `\w` is a caller-supplied predicate; the only assumption made of it is in `Transformers.TagSurvives`, `Transformers.TagDeleted` and `Transformers.TagCutBeforeMarker`, where the marker itself is not a word character, as holds for '@' and '#'.
- Columns.DetectCommentColumn: `str.lower()` is modelled on ASCII only. Non-ASCII characters never lower-case to the ASCII letters of "text" or "comment", so the comparison results are the same.
- Export.FileExtension: `str.lower()` is likewise modelled on ASCII only; the extensions compared against are ASCII, so the choice of loader is exact.
- Export.ChooseLoader: the unsupported-format error carries the ASCII-lowered extension; for a non-ASCII extension its text differs from Python's (Python lower-cases "ÄB" to "äb", the model keeps "Äb").
- Cleaner.RetentionRate: the `round(..., 2)` to two decimals and the floating-point division are not modelled; the rate is the exact rational percentage.
- pandas specifics are not modelled: NaN typing, `str()` coercion of non-string cells, dtypes and the frame index. A cell is `Option<string>`, with `None` for a missing value.
- Cleaner.CommentCleaner.CleanDataset: when no row reaches the quality gate (an empty input, every row blank, or every row blank or emoji-only with emoji removal on), pandas' `apply` on the empty column does not yield a boolean mask, and the source's indexing at app.py:183, app.py:190 or app.py:213 can then raise after the counters have been reset. The model returns an empty table with zero counts and a rate of 0 instead.
- Transformers.RemoveUrls: when a URL or an unfinished scheme in the text before a scheme runs on into it ("http://a" directly followed by "https://b"), the regex takes both as one match. `UrlDeleted` and `BareSchemeSurvives` do not describe that case; `StripUrls` itself models it exactly.
- Cleaner.CommentCleaner.CleanDataset: requires that the input has no column named `cleaned_comment`, `char_count`, `word_count` or `is_valid`. The source would overwrite such a column with its working values and then drop it.
- The diagnostic columns `char_count` and `word_count` (app.py:207-208) are computed and then dropped, so the model does not compute them; `Cleaner.CleanedCells` states they are absent from the output.
- Cleaner.CommentCleaner.CleanDataset: the returned comment cell is the cleaned value recomputed from the input row. It is the same value the source keeps in its `cleaned_comment` column.
- The `ValueError` raised for an unsupported extension (app.py:291) and the `ValueError`s of `clean_dataset` become `Failure` values rather than exceptions.

# Streaming speech text path: a Dafny model

This project models the sequential logic that sits beneath the streaming
text-to-speech path of the voice-avatar server:

- **Phrase segmentation** (`server/utils/phrase_detector.py`).
  `detect_phrase_boundary` decides from a text prefix whether a speakable
  phrase has ended, and where. `extract_phrase` cuts the text into
  `(phrase, remaining)`. Module `PhraseDetector`.
- **Sanitising and validation** (`server/utils/tts_text_cleaner.py`).
  `clean_text_for_tts` is a fixed chain of regular-expression rewrites.
  `is_tts_worthy` and `clean_and_validate_phrase` decide whether the
  cleaned text is worth sending to speech. Modules `TtsRewrites` (one
  function per rewrite step, over a small model of `re.sub`) and
  `TtsTextCleaner` (the pipeline and the validators).
- **The synthesis job queue** (`server/utils/streaming_tts.py`). The guard
  logic of `generate_tts_async` is a function. `TTSQueue` is a class whose
  methods update a task counter, the list of active tasks and the FIFO of
  completed chunks. Module `StreamingTts`.
- **Upload metadata** (`server/utils/r2_client.py`). `upload_file` derives
  an extension, a unique stored name, an object key, a content type, a
  public URL and the returned record. Module `R2Client`.

Two support modules:

- `PyStr` models the Python `str` operations the source relies on:
  `isspace`, `split`, `strip`, `' '.join`, `rfind`, slicing with clamped
  indices, `lower` and `isalpha`.
- `Wrappers` holds `Option`.

Inputs and effects that the code does not compute become parameters:

- The speech synthesiser is a function `synth`. It either returns
  optional audio bytes or raises.
- The UUID is a string argument.
- The `R2_BASEURL` setting is an `Option<string>`.
- Whether the storage upload succeeded is a boolean.

Every job runs to completion inside the `add_tts_task` call that starts it.

## Model

| member | source | states |
|---|---|---|
| PyStr.Strip | server/utils/phrase_detector.py:87 | `s.strip()` has no whitespace at either end, is empty exactly when `s` is blank, and is never longer than `s` |
| PyStr.StripIsSlice | server/utils/phrase_detector.py:93-94 | `s.strip()` is one contiguous slice of `s`, with only whitespace cut on either side |
| PyStr.Words | server/utils/phrase_detector.py:21 | every element of `s.split()` is a non-empty run without whitespace |
| PyStr.WordsOfJoin | server/utils/phrase_detector.py:100-104 | splitting `' '.join(ws)` gives back `ws` when every element is a word |
| PyStr.WordsStrip | server/utils/phrase_detector.py:93-96 | stripping does not change the words of a text |
| PyStr.WordsCut | server/utils/phrase_detector.py:93-94 | cutting a text next to whitespace splits its words into those before the cut and those after it |
| PyStr.NoSpaceWords | server/utils/phrase_detector.py:100-103 | the words of `s`, concatenated, are exactly the non-whitespace characters of `s`, in order |
| PyStr.Join | server/utils/phrase_detector.py:102-103 | `' '.join(ws)`: the words separated by single spaces; its behaviour is stated by PyStr.WordsOfJoin (splitting the join gives `ws` back), PyStr.JoinAppend (joining `a + b` is joining `a`, a space, and joining `b`), PyStr.JoinNonEmpty (words join to non-empty text) and PyStr.NoSpaceJoin (the join without its spaces is the words concatenated) |
| PyStr.RFind | server/utils/phrase_detector.py:39-43 | `rfind` gives -1 or an index holding the character, with no occurrence after it |
| PhraseDetector.DetectPhraseBoundary | server/utils/phrase_detector.py:9-72 | `detect_phrase_boundary`: rule 1 (forced break), then the rightmost sentence mark, then the rightmost clause mark, then PhraseDetector.WordRules; its own contract says a text with at least `min_words` words always gets a boundary and that a miss is exactly `(False, 0)`; the rules are stated by PhraseDetector.DetectFoundIffEnoughWords, PhraseDetector.SentenceMarkWins, PhraseDetector.ConjunctionRule, PhraseDetector.FallbackRule and PhraseDetector.DetectPositionInText |
| PhraseDetector.ForcedBreak | server/utils/phrase_detector.py:24-36 | the forced-break rule fires only on a text with at least `max_words` words; its word index is the largest `k` in `[min_words, max_words - 1]` whose window before word `k` ends in a mark, and it does not fire when no such `k` exists |
| PhraseDetector.WordRules | server/utils/phrase_detector.py:57-72 | the conjunction rule and then the six-word fallback: a boundary is found exactly when there are at least `min_words` words, and a miss is `(False, 0)`; the positions are stated by PhraseDetector.ConjunctionRule and PhraseDetector.FallbackRule |
| PhraseDetector.EndsWithMarkIsRegex | server/utils/phrase_detector.py:35 | "ends in `.,;:!?` once trailing whitespace is dropped" is exactly the regex `[.,;:!?]\s*$`: some mark followed by whitespace only |
| PhraseDetector.LastHit | server/utils/phrase_detector.py:27-36 | a descending loop that returns the first index passing its test gives the largest passing index in `[lo, i]`, and `None` only when no index there passes; both the forced-break loop and the conjunction loop (lines 59-63) are this search |
| PhraseDetector.ForcedBreakAt | server/utils/phrase_detector.py:27-36 | the descending search returns the largest word index in `[min_words, i]` whose preceding window ends in a mark, and `None` only when no index in that range qualifies |
| PhraseDetector.LastSentenceMark | server/utils/phrase_detector.py:39-43 | the index of the rightmost `.`, `!` or `?`, or -1 when there is none |
| PhraseDetector.LastClauseMark | server/utils/phrase_detector.py:48-53 | the index of the rightmost `,`, `;` or `:`, or -1 when there is none |
| PhraseDetector.ConjunctionAt | server/utils/phrase_detector.py:59-63 | the descending search returns the largest word index from `min_words` on that holds one of the eight words, and `None` only when there is none |
| PhraseDetector.ConjunctionHitIsWordTest | server/utils/phrase_detector.py:60-62 | the `boundary > 0` test never fails, so the rule depends on the word alone |
| PhraseDetector.DetectFoundIffEnoughWords | server/utils/phrase_detector.py:21-72 | a boundary is found exactly when the text has at least `min_words` words, and otherwise the answer is `(False, 0)` |
| PhraseDetector.DetectPositionInText | server/utils/phrase_detector.py:29-36 | the position never exceeds the text length, and it is positive when a boundary is found with `min_words >= 1` |
| PhraseDetector.SentenceMarkWins | server/utils/phrase_detector.py:38-55 | without a forced break, enough words before the rightmost sentence mark put the boundary just past that mark, whatever clause marks follow it |
| PhraseDetector.ConjunctionRule | server/utils/phrase_detector.py:57-63 | when rules 1-3 do not fire, the last listed word at index `min_words` or later sets the boundary to the joined length through that word |
| PhraseDetector.FallbackRule | server/utils/phrase_detector.py:65-72 | when rules 1-4 do not fire, the boundary is the joined length of the first `min(6, n)` words, or `(False, 0)` when there are fewer than `min_words` words |
| PhraseDetector.ExtractPhrase | server/utils/phrase_detector.py:75-107 | `extract_phrase`: the detected boundary when it is positive and leaves at least `min_words` words before it, otherwise the first `max_words` words, otherwise `("", text)`; its behaviour is stated by PhraseDetector.ExtractBlank, PhraseDetector.ExtractTooFewWords, PhraseDetector.ExtractKeepsCharacters, PhraseDetector.ExtractTrimmed and PhraseDetector.ExtractPhraseHasMinWords, and the word split it causes by PhraseDetector.ExtractPhraseSplitsWord |
| PhraseDetector.ExtractBlank | server/utils/phrase_detector.py:87-88 | empty or whitespace-only text gives `("", "")` |
| PhraseDetector.ExtractTooFewWords | server/utils/phrase_detector.py:99-107 | text with fewer than `min_words` words gives `("", text)`, with the text unchanged |
| PhraseDetector.ExtractPhraseHasMinWords | server/utils/phrase_detector.py:92-104 | with `min_words <= max_words`, a non-empty phrase has at least `min_words` words |
| PhraseDetector.ExtractKeepsCharacters | server/utils/phrase_detector.py:92-107 | with whitespace deleted, `phrase + remaining` equals the text: no visible character is lost or reordered |
| PhraseDetector.ExtractTrimmed | server/utils/phrase_detector.py:93-94 | the phrase, and the remainder whenever it is not the untouched text, have no surrounding whitespace |
| PhraseDetector.DetectCutsBetweenWords | server/utils/phrase_detector.py:29-70 | on single-spaced text whose marks end words, every rule cuts next to a space or at the end |
| PhraseDetector.ExtractPhraseSplitsWord | server/utils/phrase_detector.py:90-94 | as written, `(" ab cd ef", 3, 8)` gives `("ab cd e", "f")`, which splits the word `ef` |
| PhraseDetector.ExtractPhraseFixed | server/utils/phrase_detector.py:75-107 | the corrected splitter of the Findings table: `extract_phrase` applied to `' '.join(text.split())`, the form the positions are measured on; PhraseDetector.ExtractPhraseFixedKeepsWords states that it keeps every word whole |
| PhraseDetector.ExtractPhraseFixedKeepsWords | server/utils/phrase_detector.py:75-107 | the corrected splitter keeps every word whole: the words of the phrase followed by those of the remainder are the text's words |
| TtsRewrites.ReSub | server/utils/tts_text_cleaner.py:37-98 | `re.sub` over a pattern that never matches the empty string: each leftmost match is replaced and the scan resumes after it, and an unmatched character is kept; its behaviour is stated by TtsRewrites.ReSubCharsFrom, TtsRewrites.ReSubKeeps, TtsRewrites.ReSubWithout and TtsRewrites.ReSubNowhere |
| TtsRewrites.ReSubCharsFrom | server/utils/tts_text_cleaner.py:37-98 | a substitution whose replacements contain only matched characters (and a fixed extra set) adds no other character |
| TtsRewrites.ReSubWithout | server/utils/tts_text_cleaner.py:37-98 | a substitution leaves text unchanged when the character every match must contain is absent |
| TtsRewrites.ReSubKeeps | server/utils/tts_text_cleaner.py:37-98 | when every replacement keeps, in order, the characters outside a class that its matched text had, the whole substitution keeps those characters of the text, in order |
| TtsRewrites.ReSubNowhere | server/utils/tts_text_cleaner.py:37-98 | a pattern that matches at no position leaves the text unchanged |
| TtsRewrites.RemoveCodeBlocks | server/utils/tts_text_cleaner.py:37 | removing fenced blocks adds no character, and text without a backtick is unchanged |
| TtsRewrites.UnwrapInlineCode | server/utils/tts_text_cleaner.py:40 | unwrapping inline code adds no character, and text without a backtick is unchanged |
| TtsRewrites.UnwrapDoubleStars | server/utils/tts_text_cleaner.py:43 | unwrapping bold markers adds no character, and text without `*` is unchanged |
| TtsRewrites.UnwrapDoubleUnderscores | server/utils/tts_text_cleaner.py:44 | unwrapping double underscores adds no character, and text without `_` is unchanged |
| TtsRewrites.UnwrapStars | server/utils/tts_text_cleaner.py:45 | unwrapping italic stars adds no character, and text without `*` is unchanged |
| TtsRewrites.UnwrapUnderscores | server/utils/tts_text_cleaner.py:46 | unwrapping single underscores adds no character, and text without `_` is unchanged |
| TtsRewrites.RemoveHeaders | server/utils/tts_text_cleaner.py:49 | removing header markers adds no character, and text without `#` is unchanged |
| TtsRewrites.UnwrapLinks | server/utils/tts_text_cleaner.py:52 | unwrapping links adds no character, and text without `[` is unchanged |
| TtsRewrites.ReplaceUrls | server/utils/tts_text_cleaner.py:55 | replacing URLs adds only the letters of `link`, and text that does not contain `http` is unchanged |
| TtsRewrites.ReplaceWwwUrls | server/utils/tts_text_cleaner.py:56 | replacing `www.` addresses adds only the letters of `link`, and text that does not contain `www.` is unchanged |
| TtsRewrites.ReplaceEmails | server/utils/tts_text_cleaner.py:59 | replacing e-mail addresses adds only the characters of `email address`, and text without `@` is unchanged |
| TtsRewrites.CollapseRepeats | server/utils/tts_text_cleaner.py:61-65 | a run of at least `minLen` copies of the mark becomes the replacement: no new character appears, every other character is kept in order, no run of the mark longer than `max(len(repl), minLen - 1)` is left (one `!`, `?` or `,`; at most three dots), and text without a long run is unchanged |
| TtsRewrites.RepeatsRunsBelow | server/utils/tts_text_cleaner.py:61-65 | after `re.sub` of `[c]{minLen,}` by a run of `c`, every run of `c` is shorter than `max(len(repl) + 1, minLen)` |
| TtsRewrites.RemoveSpecialChars | server/utils/tts_text_cleaner.py:67-70 | none of the sixteen special characters listed on line 69 remains; only spaces are added; every other character, including the kept `. , ! ? : ; - ' " ( ) [ ] { }` of line 68, is kept in order; text without a special character is unchanged |
| TtsRewrites.CollapseWhitespace | server/utils/tts_text_cleaner.py:73 | after it no two whitespace characters are adjacent and all whitespace is `' '`; the non-whitespace characters are the same and in order; no `--` is created; only spaces are added; the letters are kept in order |
| TtsRewrites.AttachLoneMarks | server/utils/tts_text_cleaner.py:81 | attaching lone marks adds only spaces and keeps the letters in order |
| TtsRewrites.SpaceAfterMarks | server/utils/tts_text_cleaner.py:84 | spacing after marks adds only spaces and keeps the letters in order |
| TtsRewrites.KeepCharBeforeMarks | server/utils/tts_text_cleaner.py:85 | the rewrite `([^\s])([.,;:!?])` → `\1\2` leaves every text unchanged |
| TtsRewrites.RemoveEmptyBrackets | server/utils/tts_text_cleaner.py:88 | removing empty brackets adds no character and keeps the letters in order |
| TtsRewrites.RemoveNumbersInParens | server/utils/tts_text_cleaner.py:91 | removing bracketed numbers adds no character and keeps the letters in order |
| TtsRewrites.ReplaceChar | server/utils/tts_text_cleaner.py:94-95 | each `a` becomes `b` and nothing else changes, so the quote replacements, which have the same character on both sides, are the identity |
| TtsRewrites.CollapseDashes | server/utils/tts_text_cleaner.py:97-98 | no `--` remains; only spaces are added; every character other than dashes and whitespace is kept in order; text without `--` keeps its single dashes and is unchanged |
| TtsTextCleaner.RewriteMarkup | server/utils/tts_text_cleaner.py:37-59 | the markup steps add only the characters of `link` and `email address`, add nothing to text with no letter and no `@`, and leave text without markup, URL or `@` unchanged |
| TtsTextCleaner.RemoveMarkdown | server/utils/tts_text_cleaner.py:37-52 | removing code, emphasis markers, headers and link syntax adds no character, and text without `` ` ``, `*`, `_`, `#` or `[` is unchanged |
| TtsTextCleaner.CollapseRepeatedMarks | server/utils/tts_text_cleaner.py:61-65 | collapsing repeated marks adds no character, keeps every character other than `!?.,` in order (so every letter), and leaves text with no run to collapse unchanged |
| TtsTextCleaner.SpaceOut | server/utils/tts_text_cleaner.py:67-85 | after the special-character and first spacing steps no special character is left, only spaces are added, and the letters are kept in order |
| TtsTextCleaner.Tidy | server/utils/tts_text_cleaner.py:87-101 | after the bracket, quote and dash steps and the last whitespace pass there is no `--`, only single `' '` spaces, only spaces are added, and the letters are kept in order |
| TtsTextCleaner.Respace | server/utils/tts_text_cleaner.py:67-102 | the result has no special character, no `--`, only single `' '` spaces and no whitespace at either end; only spaces are added; the letters are kept in order |
| TtsTextCleaner.Sanitize | server/utils/tts_text_cleaner.py:34-102 | the rewritten text is speakable in the sense above; its letters are those of the stripped text after the markup steps, so text free of markup, URLs and `@` keeps exactly its letters in order; text with no letter and no `@` stays without letters |
| TtsTextCleaner.AddFinalPeriod | server/utils/tts_text_cleaner.py:108-113 | a `.` is added exactly when the text does not end in one of `.!?,;:` and has more than three words, and otherwise the text is unchanged; the letters are kept |
| TtsTextCleaner.Finish | server/utils/tts_text_cleaner.py:104-113 | the result is `""` exactly when the text is empty or a lone mark once stripped; otherwise it is the text with the final-period rule applied; the result is speakable, never a lone mark, and has the text's letters |
| TtsTextCleaner.CleanTextForTts | server/utils/tts_text_cleaner.py:9-115 | blank input gives `""`; other input gives the final stage applied to the rewritten text, which is `""` exactly when that text is empty or a lone mark; a `.` is added exactly when the rewritten text has more than three words and no final mark; the output is speakable and never a lone mark; text free of markup, URLs and `@` keeps its letters in order |
| TtsTextCleaner.IsTtsWorthy | server/utils/tts_text_cleaner.py:118-144 | worthy exactly when the input is not blank, the cleaned text has at least `min_length` words, and at least 30% of its characters are letters |
| TtsTextCleaner.NoLettersNotWorthy | server/utils/tts_text_cleaner.py:132-142 | text with no letter and no `@` is never worthy once `min_length >= 1` |
| TtsTextCleaner.CleanAndValidatePhrase | server/utils/tts_text_cleaner.py:147-167 | blank input gives `None`, any result is exactly `clean_text_for_tts(text)`, and a result comes back exactly when the cleaned text is worthy |
| TtsTextCleaner.NoLettersDropped | server/utils/tts_text_cleaner.py:159-167 | punctuation-only phrases such as `...` are dropped |
| StreamingTts.GenerateTtsAsync | server/utils/streaming_tts.py:15-72 | synthesis is called, on `text.strip()`, exactly when the stripped text has at least 3 characters; when it returns, its optional audio is the result; a raise gives `None` |
| StreamingTts.EffectiveChunkId | server/utils/streaming_tts.py:105 | `chunk_id or task_id`: the given id unless it is `None` or `0` |
| StreamingTts.JobResult | server/utils/streaming_tts.py:118-149 | a chunk comes out exactly when the text is long enough and synthesis returned non-empty bytes; it carries the effective id, the unstripped text and those bytes |
| StreamingTts.TTSQueue.constructor | server/utils/streaming_tts.py:80-83 | counter 0, no tasks, empty queue |
| StreamingTts.TTSQueue.AddTtsTask | server/utils/streaming_tts.py:85-108 | the counter goes up by one; the task is recorded under the old counter; the active ids are consecutive and in order, starting at the counter's value at the last `wait_all` (0 before the first), because `wait_all` never resets the counter; at most the job's chunk is appended to the queue |
| StreamingTts.TTSQueue.GenerateWithId | server/utils/streaming_tts.py:110-149 | exactly the job's chunk, if any, is appended to the queue; short text leaves the queue unchanged; nothing else changes |
| StreamingTts.TTSQueue.WaitForChunk | server/utils/streaming_tts.py:151-165 | the oldest chunk is removed and returned; an empty queue gives `None` and stays empty |
| StreamingTts.TTSQueue.WaitAll | server/utils/streaming_tts.py:167-176 | the task list is emptied and the completed queue and counter are kept |
| StreamingTts.TTSQueue.IsQueueEmpty | server/utils/streaming_tts.py:178-180 | empty exactly when the queue size is 0 |
| StreamingTts.TTSQueue.GetQueueSize | server/utils/streaming_tts.py:182-184 | the number of completed chunks waiting |
| R2Client.SplitExt | server/utils/r2_client.py:57 | `splitext`: the two parts concatenate to the name; a non-empty suffix is a dot followed by neither a dot nor a `/`, after a basename character that is not a dot; its value is fixed by R2Client.SplitLastDot for a last component with a dot and by R2Client.SplitNoDot for one without |
| R2Client.Extension | server/utils/r2_client.py:57-58 | the extension is the `splitext` suffix without its one leading dot, in lower case, or `""` when there is no suffix; it has no dot, no `/` and no upper-case letter |
| R2Client.SplitLastDot | server/utils/r2_client.py:57 | a name `dir + base + "." + ext`, where `dir` is empty or ends in `/`, `base` has no `/` and `ext` has neither `/` nor `.`, splits into `dir + base` and `"." + ext` when `base` has a character other than a dot (as in `.env.local` or `dir/a.PNG`), and has no suffix when `base` is only dots (as in `.bashrc`) |
| R2Client.SplitNoDot | server/utils/r2_client.py:57 | a name whose last component has no dot has no suffix |
| R2Client.ExtensionAfterLastDot | server/utils/r2_client.py:57-58 | for the same names the extension is `ext` in lower case when `base` has a character other than a dot, and `""` when it is only dots |
| R2Client.StoredName | server/utils/r2_client.py:61 | the stored name is the UUID, a dot and the extension, even when the extension is empty |
| R2Client.ObjectKey | server/utils/r2_client.py:64 | the key is folder, `/`, and stored name, and the name is what follows the key's last `/` |
| R2Client.ContentType | server/utils/r2_client.py:67-86 | the table entry for a listed extension, and `application/octet-stream` for any other |
| R2Client.PublicUrl | server/utils/r2_client.py:104-105 | the URL ends in `/` and the key, with no doubled `/` before it, and is `base + "/" + key` when the base has no trailing `/` |
| R2Client.UploadFile | server/utils/r2_client.py:41-114 | a record exists exactly when the upload succeeded and a base URL is set; its fields are the stored name, the key, the URL, the content type, the original name and the size |
| R2Client.StoredNameKeepsExtension | server/utils/r2_client.py:57-61 | reading the extension back from the stored name gives the extension it was built from |
| R2Client.KeyEndsInStoredName | server/utils/r2_client.py:61-64 | the part of the key after its last `/` is the stored name |
| R2Client.NoDotNoExtension | server/utils/r2_client.py:57-58 | a name whose last component has no dot has the empty extension, in any directory |
| R2Client.HiddenFileNoExtension | server/utils/r2_client.py:57-58 | a last component made of dots and then one final suffix, such as `.bashrc` or `...x`, has no extension, in any directory |
| R2Client.PhotoExtension | server/utils/r2_client.py:57-86 | `photo.JPG` gives extension `jpg` and type `image/jpeg` |
| R2Client.LastSuffixExtension | server/utils/r2_client.py:57-58 | only the last suffix counts: `archive.tar.gz` gives `gz` |
| R2Client.TrailingDotExtension | server/utils/r2_client.py:57-61 | `notes.` has the empty extension, and its stored name ends in a bare dot |

## Left out

- `TTS_SEMAPHORE`, `asyncio.create_task`, `asyncio.to_thread` and `asyncio.gather` are not modelled as concurrency. Every job runs to completion inside the `AddTtsTask` call that starts it. Mutual exclusion of synthesis calls is not stated.
- StreamingTts.TTSQueue.WaitForChunk: the 30-second `wait_for` timeout is modelled only as an empty queue giving `None`. The model has no clock and no producer that could fill the queue while the caller waits.
- StreamingTts.TTSQueue.AddTtsTask: it returns the finished job rather than an `asyncio.Task` handle.
- The CUDA cache clearing and all logging in `server/utils/streaming_tts.py` are left out. They are foreign side effects that do not change any returned value.
- StreamingTts.TTSQueue.GenerateWithId: the model has no `except` branch. `generate_tts_async` already turns every exception of the synthesiser into `None`, so the model never reaches that branch.
- The synthesiser itself (`text_to_speech_with_voice_cloning_bytes` in `server/utils/tts_utils.py`) is not part of this model. It is the parameter `synth`.
- UUID generation, `file_bytes.seek(0)` and `upload_fileobj` are left out. The boto3 client set-up and `delete_file` of `server/utils/r2_client.py` are left out too. They are I/O: the UUID is a parameter, and the upload outcome is a boolean.
- R2Client.UploadFile: a failed upload or a missing `R2_BASEURL` raises in the source. Both give `None` here, and the exception's type is not modelled.
- R2Client.ContentTypes: the table has its 16 entries as in the source. The count is not stated as a lemma.
- R2Client.SplitExt: it follows POSIX `splitext` with `/` as the only separator. Windows drive letters and backslashes are not modelled.
- PyStr.IsAlpha: `str.isalpha` is modelled on ASCII letters only. So TtsTextCleaner.IsTtsWorthy counts non-ASCII letters as non-letters.
- PyStr.Lower: `str.lower` is modelled on ASCII letters only. This affects the conjunction test and R2Client.Extension.
- PyStr.IsSpace: it is the fixed whitespace set of Python's `str.isspace`. The same set is used for `\s` and `\S` in the regular expressions.
- PhraseDetector.DetectPhraseBoundary: `min_words` is a natural number. A negative `min_words` would bring in Python's negative indexing in `words[:i]`.
- TtsRewrites.AttachLoneMarks: its contract states which characters it may produce and that the letters are kept in order, not where it rewrites. What it matches is defined by `LoneMarkAt`.
- TtsRewrites.SpaceAfterMarks: its contract states which characters it may produce and that the letters are kept in order, not where it rewrites. What it matches is defined by `MarkThenCharAt`.
- TtsRewrites.RemoveEmptyBrackets: its contract states which characters it may produce and that the letters are kept in order, not where it rewrites. What it matches is defined by `EmptyBracketsAt`.
- TtsRewrites.RemoveNumbersInParens: its contract states which characters it may produce and that the letters are kept in order, not where it rewrites. What it matches is defined by `NumberInParensAt`.
- The markup steps from TtsRewrites.RemoveCodeBlocks to TtsRewrites.ReplaceEmails are stated the same way: which characters each may add, and when it changes nothing. What they match is defined by their matcher functions, such as `DelimitedAt` and `LinkAt`.
- TtsTextCleaner.CollapseRepeatedMarks: the bound on the runs left behind is stated for each of the four steps, on TtsRewrites.CollapseRepeats, and not for their composition: a later step does not lengthen an earlier mark's runs, but that is not proved.
- TtsTextCleaner.Sanitize: letters are kept only for input free of markup, URLs and `@`. On other input the markup steps drop letters (whole code blocks, a link's URL) or add them (`link`, `email address`), and the contract then ties the letters to the markup steps' output only.
- TtsTextCleaner.Respace: it states which characters the spacing steps keep (the letters) but not where spaces end up around marks.
- TtsTextCleaner.IsTtsWorthy: the test `alpha_chars / len(cleaned) < 0.3` is a floating-point division. It is stated as the integer comparison `10 * alpha < 3 * len`.
- Default arguments (`min_words=3` and `max_words=8` at server/utils/phrase_detector.py:9 and :75, `min_length=3` and `min_words=3` at server/utils/tts_text_cleaner.py:118 and :147, `folder="storyboard"` at server/utils/r2_client.py:41) are the constants PhraseDetector.DefaultMinWords, PhraseDetector.DefaultMaxWords, TtsTextCleaner.DefaultMinLength, TtsTextCleaner.DefaultMinWords and R2Client.DefaultFolder. Every function takes these values as explicit parameters and every lemma holds for all of them, so a call that omits an argument is the same call with the constant passed.
- Nothing outside the four files is modelled: the routes, the ML model code, authentication, e-mail, the database and the scripts.

## Findings

| source | as written | input that shows it | evidently intended | confidence | as-written member | corrected member |
|---|---|---|---|---|---|---|
| server/utils/phrase_detector.py:29, 61, 69, 93-94 | Forced-break, conjunction and fallback positions are lengths of `' '.join(words[:k])`, yet `extract_phrase` uses them to slice the raw text. Extra whitespace before a cut shifts the cut into a word. | `extract_phrase(" ab cd ef", 3, 8)` returns `("ab cd e", "f")` | every cut falls between words, so the text's words are kept whole | not executed | PhraseDetector.ExtractPhraseSplitsWord | PhraseDetector.ExtractPhraseFixedKeepsWords |

The corrected definition is `PhraseDetector.ExtractPhraseFixed`. It applies the positions to the single-space form they were measured on.

`PhraseDetector.ExtractPhraseFixedKeepsWords` proves that the corrected splitter keeps every word whole, with two assumptions:
- `min_words >= 1`;
- every `.,;:!?` in the text ends a word.

A mark inside a word, as in `3.5`, is a cut point of rules 2 and 3 as written, although a boundary is meant to be a mark followed by whitespace or the end of the text. The corrected splitter keeps that behaviour of the rules, so the second assumption stays.

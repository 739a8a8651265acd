# Voice backend core, modelled in Dafny

This project models the Python backend of a voice assistant. The backend does speech-to-text with Whisper, chat through the `openclaw agent` command-line tool, and text-to-speech with Piper. The model covers the parts of the backend that hold logic rather than plumbing:

- **Sessions** (`session_store.dfy`). The in-memory session table of `SessionStore` becomes a class over a `map<string, Session>` field. It covers creation, lookup with expiry, keyword updates, touch, delete, the pending-message queue, bulk stale cleanup and the reconnection summary. The clock and the id generator are parameters.
- **Transcription** (`transcribe.dfy`). The buffering logic of `ChunkedTranscriber` becomes a class:
  - the byte buffer grows on every feed;
  - a window of `chunk_duration_ms * bytes_per_ms` bytes is cut off, keeping an overlap;
  - a final flush drains the buffer;
  - the partial transcripts are merged by dropping adjacent repeated words.

  Whisper is an oracle from an audio window and a format to `Option<string>`.
- **Responses** (`stream_response.dfy`). This covers `_split_sentences`, and what `stream_chat_response`, `get_full_response` and `get_all_responses` produce for each way a CLI run can end. A run is given as a `CliOutcome` value. `get_main_session_id` is a lookup in the decoded `sessions.json`.
- **Markdown** (`markdown.dfy`). `strip_markdown` is fifteen `re.sub` passes, each modelled by a hand-written matcher and one shared scan that behaves like `re.sub`, followed by `strip`.
- **Handlers** (`handlers.dfy`). These are the pure parts of the HTTP handlers in `main.py`:
  - upload extensions and the two allow-lists;
  - the result of `transcribe_audio`, `chat_audio`, `_process_chat`, `speak` and `serve_audio` as a function of the subprocess outcomes;
  - the `safe_text` shell escaping;
  - `Path(filename).name`.

  The same file holds a model of how a POSIX shell reads a double-quoted word, which is used to show a defect in the escaping (see Findings).
- **Shared pieces.** `text.dfy` holds the Python string primitives the code relies on (`strip`, `split()`, `split(c)`, `join`, `lower`, `replace`) over ASCII characters. `common.dfy` holds `Option`, `Result`, `HttpError` and `byte`.

Characters are ASCII throughout:
- whitespace is the ASCII characters `str.isspace` accepts: space, `\t`, `\n`, `\v`, `\f`, `\r` and the separators `\x1c` to `\x1f`;
- `\w` is letters, digits and `_`;
- `\d` is `0`-`9`;
- `lower` maps `A`-`Z` only.

Times are `real`.

## Model

| member | source | states |
|---|---|---|
| Text.Strip | backend/src/stream_response.py:147 | `s.strip()` has whitespace at neither end and is no longer than `s` |
| Text.StripIsSlice | backend/src/utils.py:39 | the stripped text is one contiguous slice of the input |
| Text.StripCutsSpace | backend/src/utils.py:39 | everything `strip` removes, at either end, is whitespace |
| Text.StripStripped | backend/src/transcribe.py:167 | `strip` leaves text with no whitespace at either end unchanged |
| Text.StripEmptyIffAllSpace | backend/src/stream_response.py:61 | `s.strip()` is empty exactly when `s` is all whitespace (both directions) |
| Text.Words | backend/src/transcribe.py:203 | every element of `s.split()` is a non-empty word without whitespace |
| Text.WordsOfSpace | backend/src/transcribe.py:203 | whitespace-only text splits into no words |
| Text.WordsOfWordThen | backend/src/transcribe.py:203 | a word followed by whitespace or the end is the first element of the split |
| Text.WordsAfterSpace | backend/src/transcribe.py:203 | a leading space does not change the split |
| Text.WordsJoin | backend/src/transcribe.py:200-203 | joining words with single spaces and splitting again gives back exactly those words |
| Text.IndexOf | backend/src/main.py:62 | `None` exactly when the character is absent, otherwise its first position |
| Text.Split | backend/src/main.py:62 | `s.split(c)` has at least one piece and no piece holds `c` |
| Text.JoinSplit | backend/src/main.py:62 | joining the pieces of `s.split(c)` with `c` gives back `s` |
| Text.SplitWithout | backend/src/main.py:62 | text without `c` splits into the single piece `[s]` |
| Text.SplitLast | backend/src/main.py:62 | the last piece of `(a + c + b).split(c)` is `b` when `b` holds no `c` |
| Text.Lower | backend/src/main.py:62 | `lower` keeps the length and lowers each position on its own |
| Text.LowerKeeps | backend/src/main.py:62 | a non-letter occurs in `s` exactly when it occurs in `s.lower()` |
| Text.ReplaceAppend | backend/src/main.py:120 | `replace` distributes over concatenation |
| Text.ReplaceAbsent | backend/src/main.py:120 | replacing a character that does not occur changes nothing |
| Text.ReplaceLength | backend/src/main.py:120 | `s.replace(c, r)` has length `|s| + count(c) * (|r| - 1)` |
| Text.CountAppend | backend/src/main.py:120 | occurrences in a concatenation add up |
| Text.CountAfterReplace | backend/src/main.py:120 | after replacing `c` with `r`, another character `d` occurs `count(d) + count(c) * (occurrences of d in r)` times |
| Sessions.SessionStore.constructor | backend/src/session_store.py:37-40 | the table starts empty, with the given time-to-live |
| Sessions.SessionStore.CreateSession | backend/src/session_store.py:42-51 | adds one entry under the fresh id, with state `idle`, no pending messages, empty partials and both timestamps `now`; every other entry is unchanged; the table grows by one when the id is new |
| Sessions.SessionStore.GetSession | backend/src/session_store.py:53-64 | an absent id gives `None`; an entry older than the time-to-live is deleted and gives `None`; otherwise the entry is returned and the table is unchanged |
| Sessions.AgeEqualToTtlIsValid | backend/src/session_store.py:59-60 | an entry whose age equals the time-to-live exactly has not expired |
| Sessions.SessionStore.UpdateSession | backend/src/session_store.py:66-81 | false and no change for an absent id; otherwise exactly the entry becomes the updates applied in order with `last_activity := now`, and true is returned; the entry keeps its id, so every entry stays filed under its own id |
| Sessions.KnownOnly | backend/src/session_store.py:76-78 | the updates whose key names an attribute, never longer than the input |
| Sessions.UnknownKeysIgnored | backend/src/session_store.py:76-78 | applying the updates equals applying only those with known keys |
| Sessions.ApplyUpdateFrame | backend/src/session_store.py:77-78 | one `setattr` leaves every other attribute as it was |
| Sessions.ApplyUpdatesFrame | backend/src/session_store.py:76-78 | an attribute no keyword names keeps its value |
| Sessions.KeepsSessionId | backend/src/session_store.py:66-78 | no update changes the entry's id: `session_id` cannot be passed as a keyword, since it is the positional parameter |
| Sessions.SessionStore.TouchSession | backend/src/session_store.py:83-90 | true exactly when present; only `last_activity` of that entry changes |
| Sessions.SessionStore.DeleteSession | backend/src/session_store.py:92-99 | true exactly when present; afterwards the id is absent, every other entry is untouched, and the size drops by one on success |
| Sessions.SessionStore.QueueMessage | backend/src/session_store.py:101-113 | true exactly when present; the message goes to the end of the queue, earlier ones stay in order, and `last_activity := now` |
| Sessions.SessionStore.GetPendingMessages | backend/src/session_store.py:115-121 | the queue of the entry, or `[]` for an unknown id; nothing changes |
| Sessions.SessionStore.ClearPendingMessages | backend/src/session_store.py:123-130 | true exactly when present; empties the queue and leaves `last_activity` alone |
| Sessions.StaleIds | backend/src/session_store.py:142-145 | the ids collected are exactly those of the entries last active before the cutoff |
| Sessions.WithoutStaleKeeps | backend/src/session_store.py:142-148 | an entry survives cleanup exactly when it is not stale, and survives unchanged |
| Sessions.DeleteAll | backend/src/session_store.py:146-148 | deleting the collected ids one by one removes exactly them and counts them |
| Sessions.RemoveKeysSize | backend/src/session_store.py:146-148 | deleting a set of present keys shrinks the table by the size of the set |
| Sessions.CleanupFacts | backend/src/session_store.py:146-148 | the table after cleanup has `|m| - |stale ids|` entries and keeps entries filed under their own ids |
| Sessions.RemoveStale | backend/src/session_store.py:138-148 | the table without the stale entries, and `removed` equal to the old size minus the new |
| Sessions.SessionStore.CleanupStaleSessions | backend/src/session_store.py:132-153 | removes exactly the entries last active before `now - max_age` and returns the old size minus the new size |
| Sessions.ZeroMaxAgeIsDefault | backend/src/session_store.py:137 | `max_age_seconds=0` behaves exactly like `None`: the default time-to-live |
| Sessions.CleanupMatchesGetExpiry | backend/src/session_store.py:137-144 | with the default time-to-live, cleanup removes an entry exactly when `get_session` would expire it at the same `now` |
| Sessions.SessionStore.GetActiveSessionCount | backend/src/session_store.py:155-158 | the number of entries in the table |
| Sessions.SessionStore.GetSessionState | backend/src/session_store.py:160-175 | `None` exactly when `get_session` gives `None` (and it deletes as that does); otherwise the summary of the entry, with the length of its queue as the count |
| Transcription.PyIndex | backend/src/transcribe.py:122-124 | a Python slice bound lands inside the sequence; in-range bounds are kept as they are |
| Transcription.ChunkedTranscriber.constructor | backend/src/transcribe.py:33-54 | empty buffer, no partials, format `webm`, rate 48000 and 2 bytes per ms |
| Transcription.ChunkedTranscriber.SetFormat | backend/src/transcribe.py:56-67 | format and rate are always set; bytes per ms become 2 for `webm`/`opus`, 4 for `mp4`, `rate * 2 // 1000` for `wav` and stay as they were otherwise |
| Transcription.ChunkedTranscriber.FeedAudio | backend/src/transcribe.py:69-83 | the chunk is always appended; below a full window it returns `None` with the buffer `old + chunk`, otherwise one non-final step runs on the grown buffer |
| Transcription.OverlapKept | backend/src/transcribe.py:119-124 | a non-final cut processes `buffer[..chunk]`, keeps `buffer[chunk - overlap..]`, and the last `overlap` bytes processed are the first ones kept |
| Transcription.CutShrinks | backend/src/transcribe.py:119-124 | with an overlap shorter than the window, a non-final cut shrinks the buffer by `chunk - overlap` |
| Transcription.ZeroRateKeepsEverything | backend/src/transcribe.py:119-124 | with zero bytes per ms the window is empty and the whole buffer is kept |
| Transcription.FinalDrains | backend/src/transcribe.py:115-117 | a final cut processes the whole buffer and leaves it empty |
| Transcription.StepOnEmptyBuffer | backend/src/transcribe.py:111-112 | with an empty buffer a step returns `""` and changes nothing |
| Transcription.StepRecordsOnSuccess | backend/src/transcribe.py:160-185 | a partial is appended and becomes `last_chunk_text` exactly when the oracle succeeds; on failure the result is `""` and the partials are unchanged |
| Transcription.ChunkedTranscriber.TranscribeChunk | backend/src/transcribe.py:108-185 | the new state and the returned text are those of one step; format and rate are unchanged |
| Transcription.Dedup | backend/src/transcribe.py:204-207 | the cleaned word list is no longer than its input |
| Transcription.DedupEnds | backend/src/transcribe.py:204-207 | the cleaned list keeps the first word and ends with a word equal to the last |
| Transcription.DedupNoAdjacentRepeats | backend/src/transcribe.py:203-209 | no two adjacent cleaned words are equal ignoring case |
| Transcription.DedupFixed | backend/src/transcribe.py:204-207 | a list without adjacent repeats is left as it is |
| Transcription.DedupIdempotent | backend/src/transcribe.py:203-209 | cleaning twice is cleaning once |
| Transcription.DedupIsSubsequence | backend/src/transcribe.py:203-209 | the cleaned list is a subsequence of the words |
| Transcription.DedupElements | backend/src/transcribe.py:203-209 | every cleaned word is one of the input words |
| Transcription.MergedSingle | backend/src/transcribe.py:195-196 | a single partial is returned verbatim |
| Transcription.MergedWords | backend/src/transcribe.py:198-209 | for two or more partials, the words of the merge are the cleaned words of all partials: no adjacent repeats, in their original order |
| Transcription.ChunkedTranscriber.MergeTranscripts | backend/src/transcribe.py:190-209 | the loop builds exactly the merge of the partials |
| Transcription.ChunkedTranscriber.Reset | backend/src/transcribe.py:102-106 | buffer, partials and last text are emptied; format, rate and bytes per ms are kept |
| Transcription.ChunkedTranscriber.Finalize | backend/src/transcribe.py:85-100 | returns the merge of the partials after a final flush of a non-empty buffer, then leaves the state empty |
| Responses.RawOrReceived | backend/src/stream_response.py:116-120 | the stripped stdout when it is not empty, else the fixed acknowledgement; never empty |
| Responses.FirstBoundary | backend/src/stream_response.py:144 | a boundary found is at or after the start and is whitespace after `.`, `!` or `?` |
| Responses.FirstBoundaryLeftmost | backend/src/stream_response.py:144 | nothing is found exactly when there is no boundary, otherwise the leftmost one |
| Responses.SplitFrom | backend/src/stream_response.py:144 | `re.split` gives at least one piece |
| Responses.SplitRaw | backend/src/stream_response.py:144 | `re.split` on the whole text gives at least one piece |
| Responses.SplitRebuild | backend/src/stream_response.py:144 | the pieces woven with the removed runs give back the text, with one run between each pair of pieces |
| Responses.SeparatorsAreSpace | backend/src/stream_response.py:144 | every removed run is non-empty whitespace |
| Responses.PiecesEndSentences | backend/src/stream_response.py:144 | every piece before a cut is non-empty and ends with `.`, `!` or `?` |
| Responses.PiecesHaveNoBoundary | backend/src/stream_response.py:144 | no piece holds a boundary, so the split cuts at every boundary |
| Responses.PiecesAfterCutStartSolid | backend/src/stream_response.py:144 | a piece after a cut never starts with whitespace, because `\s+` takes the whole run |
| Responses.SplitRawShape | backend/src/stream_response.py:144 | the whole shape of the split: rebuilds the text, separators are whitespace, pieces end sentences, no boundary is left inside a piece, and no piece after a cut starts with whitespace |
| Responses.NoBoundaryOnePiece | backend/src/stream_response.py:144 | text without a boundary is its own single piece |
| Responses.TwoPieces | backend/src/stream_response.py:144 | a sentence end followed by whitespace and more text is cut into those two pieces |
| Responses.Cleaned | backend/src/stream_response.py:147 | every kept piece is non-empty and stripped, never more pieces than given |
| Responses.SplitSentences | backend/src/stream_response.py:146-147 | every sentence is non-empty with whitespace at neither end |
| Responses.NoBoundaryOneSentence | backend/src/stream_response.py:144-147 | text without a boundary gives `[text.strip()]`, or `[]` when that is empty |
| Responses.SpaceHasNoSentences | backend/src/stream_response.py:146-147 | whitespace-only text holds no sentence |
| Responses.TwoSentences | backend/src/stream_response.py:144-147 | two stripped sentences separated by whitespace come back as those two |
| Responses.BlankInputChunks | backend/src/stream_response.py:61-63 | blank input yields only the request to repeat, and the full response is that text |
| Responses.FirstPayloadChunks | backend/src/stream_response.py:97-106 | a truthy first payload is streamed as its sentences |
| Responses.WhitespacePayloadYieldsNothing | backend/src/stream_response.py:97-106 | a truthy first payload that is only whitespace makes the stream yield nothing |
| Responses.FirstPayloadOnly | backend/src/stream_response.py:97-111 | a falsy first payload gives the format fallback whatever later payloads hold |
| Responses.SingleChunkOutcomes | backend/src/stream_response.py:109-136 | every outcome other than a usable first payload yields exactly one non-empty chunk |
| Responses.Collect | backend/src/stream_response.py:152-154 | the loop collects exactly the chunks of the stream, in order |
| Responses.GetFullResponse | backend/src/stream_response.py:150-155 | the chunks of the stream joined with single spaces |
| Responses.TextPayloads | backend/src/stream_response.py:209-217 | only payloads with non-empty text are kept, never more than given |
| Responses.TextPayloadsExactly | backend/src/stream_response.py:207-220 | nothing is kept exactly when no payload has truthy text, and each truthy payload is kept with its `mediaUrl` |
| Responses.TextPayloadsNone | backend/src/stream_response.py:207-220 | nothing is selected exactly when no payload has truthy text (both directions) |
| Responses.TextPayloadsKeeps | backend/src/stream_response.py:209-217 | every payload with truthy text is selected, with its `mediaUrl` |
| Responses.TextPayloadsAppend | backend/src/stream_response.py:209-217 | the selection over a concatenation concatenates the selections, so order is kept |
| Responses.SelectTextPayloads | backend/src/stream_response.py:209-217 | the loop builds exactly the selection of payloads with truthy text |
| Responses.GetAllResponses | backend/src/stream_response.py:158-246 | the returned list for every outcome: the selected payloads, or the one fallback message of that outcome |
| Responses.AllResponsesNonEmpty | backend/src/stream_response.py:172-246 | never an empty list, and every text in it is non-empty |
| Responses.LaterPayloadReachesOnlyAllResponses | backend/src/stream_response.py:95-111 | a falsy first and truthy second payload: the stream gives the fallback, `get_all_responses` the second text |
| Responses.SameFallbacks | backend/src/stream_response.py:113-136 | outside a parsed reply both entry points answer with the same single text |
| Responses.MainSessionId | backend/src/stream_response.py:20-41 | the recorded non-empty `sessionId` of the main key when there is one, else the key itself; never empty |
| Markdown.MatchAt | backend/src/utils.py:13-38 | a match is never empty and ends inside the text |
| Markdown.SubFromCopies | backend/src/utils.py:13-38 | where the pattern matches nowhere, `re.sub` copies the stretch |
| Markdown.SubNoMatch | backend/src/utils.py:13-38 | a pattern that matches nowhere leaves the text unchanged |
| Markdown.NoMatchWithoutOpener | backend/src/utils.py:13-38 | no match starts where the pattern's opening character is missing |
| Markdown.CopiesWithout | backend/src/utils.py:13-38 | a pass copies any stretch without the opening character |
| Markdown.InertNoMatch | backend/src/utils.py:13-38 | a pattern never matches in text without its trigger characters |
| Markdown.CopiesInert | backend/src/utils.py:13-38 | a pass copies the text from where it has no trigger character on |
| Markdown.InertSub | backend/src/utils.py:13-38 | a pass over text without its trigger characters changes nothing |
| Markdown.PipelinePlain | backend/src/utils.py:12-38 | any sequence of the passes leaves plain prose unchanged |
| Markdown.StripMarkdownPlain | backend/src/utils.py:12-39 | stripped prose without `` ` * _ # [ > - + ~ ``, digits or three newlines comes back unchanged |
| Markdown.StripMarkdown | backend/src/utils.py:8-39 | the result has whitespace at neither end |
| Markdown.CollapseFrom | backend/src/utils.py:38 | the blank-line pass leaves no triple newline and never starts with more newlines than the input did |
| Markdown.CollapseBlankLines | backend/src/utils.py:38 | after the blank-line pass no three newlines follow each other |
| Markdown.StripNoTriple | backend/src/utils.py:39 | stripping creates no triple newline |
| Markdown.StrippedPipelineNoTriple | backend/src/utils.py:38-39 | a pipeline ending with the blank-line pass, then stripped, has no triple newline |
| Markdown.StripMarkdownNoTriple | backend/src/utils.py:38-39 | `strip_markdown` never returns three newlines in a row |
| Markdown.FenceBlockAt | backend/src/utils.py:13 | a fenced block ends at the first closing fence and is removed with its contents |
| Markdown.FenceTail | backend/src/utils.py:13 | from the end of one block, the text up to the next block survives and the block goes |
| Markdown.FenceBlocks | backend/src/utils.py:13 | two fenced blocks are removed with their contents, and the text between them survives |
| Markdown.InlineCodeAt | backend/src/utils.py:15 | a backtick span matches, with its inside as the replacement |
| Markdown.InlineCodeSpan | backend/src/utils.py:15 | the two backticks around a span are dropped and everything else is kept |
| Markdown.InlineCodeUnwrapped | backend/src/utils.py:15 | `` `x` `` becomes `x` |
| Markdown.DoubleMatch | backend/src/utils.py:17-18 | a doubled-marker span matches up to the first marker pair |
| Markdown.DoubleAt | backend/src/utils.py:36 | the bold and strike-through patterns match a doubled-marker span, with its inside as the replacement |
| Markdown.DoubleSpan | backend/src/utils.py:17-18 | the marker pairs around a bold or strike-through span are dropped |
| Markdown.DoubleUnwrapped | backend/src/utils.py:17-18 | `**x**`, `__x__` and `~~x~~` become `x` |
| Markdown.ItalicMatch | backend/src/utils.py:20-21 | an italic span with no word character outside its markers matches |
| Markdown.ItalicAt | backend/src/utils.py:20-21 | the italic patterns match such a span, with its inside as the replacement |
| Markdown.ItalicSpan | backend/src/utils.py:20-21 | the single markers around an italic span are dropped |
| Markdown.ItalicUnwrapped | backend/src/utils.py:20-21 | `*x*` and `_x_` become `x` when no word character touches the markers from outside |
| Markdown.IntrawordUnderscores | backend/src/utils.py:21 | underscores that follow word characters, as in `snake_case_name`, survive |
| Markdown.HeadingRemoved | backend/src/utils.py:23 | one to six `#` and the whitespace after them are removed |
| Markdown.HeadingTooDeep | backend/src/utils.py:23 | seven or more `#` are left alone |
| Markdown.LinkMatch | backend/src/utils.py:25 | `[text](target)` matches, with `text` as the replacement |
| Markdown.LinkSpan | backend/src/utils.py:25 | a link is replaced by its text and everything else is kept |
| Markdown.LinkText | backend/src/utils.py:25 | `a[t](u)b` becomes `atb` |
| Markdown.ImageMatch | backend/src/utils.py:27 | `![alt](target)` matches, with `alt` as the replacement |
| Markdown.ImageAlone | backend/src/utils.py:27 | on its own, the image pass reduces `![alt](u)` to `alt` |
| Markdown.ImageAfterLink | backend/src/utils.py:25-27 | because the link pass runs first, `![alt](u)` with non-empty alt comes out as `!alt` |
| Markdown.ImageWithoutAlt | backend/src/utils.py:25-27 | `![](u)` is not a link, so the image pass removes it whole |
| Markdown.QuoteRemoved | backend/src/utils.py:29 | a block-quote marker and the whitespace after it are removed |
| Markdown.RuleRemoved | backend/src/utils.py:31 | a rule of three or more `-`, `*` or `_` at the end of the text goes, with any whitespace after it |
| Markdown.RuleBeforeText | backend/src/utils.py:31 | a rule followed by more lines goes, and the newline after it is kept |
| Markdown.BulletRemoved | backend/src/utils.py:33 | a bullet marker, its indentation and the whitespace after it are removed |
| Markdown.NumberedAt | backend/src/utils.py:34 | a numbered-list marker at the start of the text matches up to the end of the whitespace after it |
| Markdown.NumberedRemoved | backend/src/utils.py:34 | a numbered-list marker, its indentation and the whitespace after it are removed |
| Handlers.ExtensionHasNoDot | backend/src/main.py:62 | an extension never holds a dot |
| Handlers.ExtensionAfterLastDot | backend/src/main.py:61-62 | the extension of `stem.ext` is `ext` lowered |
| Handlers.ExtensionWithoutDot | backend/src/main.py:61-62 | a name without a dot is its own extension, lowered |
| Handlers.DefaultExtension | backend/src/main.py:61-62 | a missing or empty file name is read as `audio.wav`, extension `wav` |
| Handlers.CheckFormat | backend/src/main.py:63-64 | accepted exactly when the extension is in the list; otherwise 400 `Unsupported audio format: {ext}` |
| Handlers.ChatAcceptsMore | backend/src/main.py:162 | the chat list strictly contains the transcribe list and adds exactly `mp4`, `ogg`, `oga` |
| Handlers.TranscribeAudio | backend/src/main.py:54-107 | 400 for an extension outside the list; success exactly when Whisper wrote a transcript, and then its stripped text; 500 otherwise |
| Handlers.ChatAudio | backend/src/main.py:152-196 | 400 outside the chat list, 500 when Whisper fails or writes nothing, else `_process_chat` on the stripped transcript |
| Handlers.SilentRecordingRefused | backend/src/main.py:185-196 | a recording that transcribes to whitespace only is refused with 400 `No text provided` |
| Handlers.TranscribableIsChattable | backend/src/main.py:162 | an upload `/voice/transcribe` takes is taken by `/voice/chat/audio`, which processes the same transcript |
| Handlers.ChatResponseText | backend/src/main.py:228-251 | the reply text is never empty. By outcome it is: the first payload's text when truthy, else `I processed your message.`; the stripped stdout or the acknowledgement for non-JSON output; `I heard: {user_text}. ` followed by the failure's message otherwise |
| Handlers.FailuresRepeatInput | backend/src/main.py:243-251 | every failed CLI run answers with `I heard: {user_text}. ` followed by more text |
| Handlers.ProcessChat | backend/src/main.py:199-268 | refused with 400 exactly when the text is empty; otherwise the reply echoes the input, carries the chosen text and names `/voice/audio/{id}.wav` |
| Handlers.WhitespaceIsProcessed | backend/src/main.py:203-204 | whitespace-only text is processed here although the stream refuses it |
| Handlers.SameFirstReply | backend/src/main.py:228-242 | for a usable first payload or a reply that is not JSON, the text agrees with the first text of `get_all_responses` |
| Handlers.OnlyFirstPayloadCounts | backend/src/main.py:232-238 | a falsy first payload gives `I processed your message.` even when the second has text |
| Handlers.SafeTextPerChar | backend/src/main.py:120 | the two chained replacements act on each character on its own: `"` becomes `\"`, `'` becomes `'\''`, the rest is kept |
| Handlers.QuotesFirstPerChar | backend/src/main.py:120 | escaping the single quotes first gives the same per-character result |
| Handlers.SafeTextCommutes | backend/src/main.py:120 | the two replacements commute |
| Handlers.SafeTextLength | backend/src/main.py:120 | the escaped length is `n + count('"') + 3 * count("'")` |
| Handlers.SafeTextKeepsUnquoted | backend/src/main.py:120 | text with neither `"` nor `'` passes through unchanged, even when it holds `$`, backtick or backslash |
| Handlers.UnquoteEscapedSingle | backend/src/main.py:37 | inside `echo "..."`, `'\''` is read as four literal characters |
| Handlers.EscapedPlainIsLiteral | backend/src/main.py:120 | for text without `$`, backtick, `"` or backslash, the shell reads the escaped text back as the escaped text itself |
| Handlers.ApostropheIsSpokenEscaped | backend/src/main.py:120 | text with an apostrophe reaches Piper as the escaped text, which differs from the input |
| Handlers.ItsIsMangled | backend/src/main.py:120 | `it's` reaches Piper as `it'\''s` |
| Handlers.CommandSubstitutionPassesThrough | backend/src/main.py:120 | `$(reboot)` passes through the escaping unchanged and the shell does not read it as literal text |
| Handlers.PiperCommandAsWrittenMangles | backend/src/main.py:122-125 | the command as built puts `it'\''s` between the quotes for `it's` |
| Handlers.EchoQuote | backend/src/main.py:37 | the corrected quoted body is never shorter than the text |
| Handlers.EchoQuoteRoundTrip | backend/src/main.py:37 | the shell reads the corrected quoted body back as exactly the text, whatever it holds |
| Handlers.EchoQuotePlain | backend/src/main.py:120 | for text without special characters or apostrophes, the corrected quoting and `safe_text` both leave it unchanged |
| Handlers.PiperCommand | backend/src/main.py:37 | the command starts with the `eval ... echo "` prefix and ends with the `" \| piper -m ... -f {file}` suffix |
| Handlers.PiperCommandQuotesText | backend/src/main.py:37 | what stands between the fixed parts of the command is read back by the shell's double-quote rules as exactly the text |
| Handlers.Speak | backend/src/main.py:110-141 | the URL `/voice/audio/{id}.wav` exactly when Piper wrote the file; otherwise 500, with Piper's stderr on failure |
| Handlers.Components | backend/src/main.py:275 | the kept path components are components of the path, none empty or `.` |
| Handlers.BaseName | backend/src/main.py:275 | the name never holds `/` and is never `.` |
| Handlers.BaseNameAfterDirectory | backend/src/main.py:275 | whatever directories precede it, the last component is the name |
| Handlers.BaseNameOfName | backend/src/main.py:275 | a plain file name is its own name |
| Handlers.ServeAudio | backend/src/main.py:271-281 | served exactly when the base name exists in the cache, and then the path is `audio_cache/` followed by that base name, with no `/` after the directory; otherwise 404 `File not found` |
| Handlers.AudioUrlIsServed | backend/src/main.py:141 | the file named by an audio URL is the one served from the cache |

## Left out

- Subprocesses are not run. Whisper, Piper and the `openclaw` CLI become outcome values or oracles, so their command lines, temp files, the debug copy, file cleanup and the 30 s / 130 s timeouts are not modelled.
- FastAPI plumbing is not modelled: routing, CORS, `UploadFile`, `FileResponse`, the health check and the server start-up. The websocket routes module is not part of this model.
- Concurrency is not modelled: the `asyncio.Lock` of `SessionStore`, `start_cleanup_task`, `StreamingTranscriber` with its queue, and the `asyncio.sleep` pacing of the stream. The lock only serialises the sequential updates modelled here.
- Logging and `print` are not modelled, and neither are the truncations that only feed the logs (`stderr[:200]`, `user_text[:50]`).
- `time.time()` and `uuid4().hex` become parameters (`now`, `freshId`, `audioId`). Float rounding of times is not modelled.
- The `get_main_session_id` file read is left out. `MainSessionId` takes the decoded `sessions.json` as a map, with `None` for a missing or unreadable file.
- The command-line arguments built for `openclaw` (the message and the session id) are not modelled, so nor is how `stream_chat_response` resolves a missing session id.
- JSON decoding is not modelled. A `CliOutcome` is the result as the code classifies it. A reply that decodes but is not an object raises inside the `try` and lands in the generic exception branch, as the caller's `Failed(message)`.
- Handlers.TranscribeAudio: does not model the generic `except Exception` at backend/src/main.py:106-107, which turns an I/O error into a 500 with the exception text. The upload read and file writes are outside the model.
- Handlers.ChatAudio: does not model exceptions from reading or writing the upload, which are not caught there.
- Handlers.Speak: takes no text, because the command's effect is not modelled. What the command says is covered by the PiperCommand lemmas.
- Handlers.ProcessChat: the Piper run's result is ignored by the code and has no parameter.
- Handlers.Unquote: treats every unescaped `$` and backtick as a possible expansion (`None`), also where the shell would keep a lone `$` literally. It does not model `echo`'s own backslash handling in shells whose `echo` interprets escapes.
- Handlers.BaseName: does not model that `..`, or a name with no component left, resolves to a directory rather than a file. `ServeAudio` takes the set of existing file names as its parameter.
- Handlers.PiperCommand: uses the corrected quoting. The command as the code builds it is `PiperCommandAsWritten`, see Findings.
- Non-ASCII characters are left out of the character classes. Python's `\s`, `str.isspace`, `strip` and `split()` also treat non-ASCII whitespace as whitespace, such as `\x85`, `\xa0` and `\u2028`. Python's `\w` and `\d` also accept non-ASCII letters and digits, and `str.lower` also lowers non-ASCII letters. The model treats all of these as ordinary characters.
- Sessions: a pending message and a session's `metadata` are `Dict[str, Any]` in the source. The model keeps them as `map<string, string>`. The store only appends, clears and counts messages, and it never reads `metadata`, so the value type does not affect its operations.
- Sessions.SessionStore.UpdateSession: a key that is not a `Session` field is ignored (`Unknown`). In the source, `hasattr` also accepts names such as `__init__` or `__eq__` that the object has but that are not fields, and `setattr` would then shadow them on the instance. Those keys are not modelled.
- Sessions.SessionStore.GetSession: returns the entry as a value. The source returns the live `Session` object, which a caller can change in place without going through the store. That aliasing is not modelled.
- Markdown.LinkText: the per-construct lemmas (fences, inline code, bold, italics, links, images, headings, quotes, rules, list markers) describe one construct in text with none of that pass's trigger characters elsewhere. Interactions between several constructs of one pass are covered only by the general scan lemmas.
- Transcription.ChunkedTranscriber.constructor: takes the durations, model and language as arguments, where Python has defaults. The defaults 3000 and 500 are the constants `DefaultChunkDurationMs` and `DefaultOverlapMs`. The model and language only reach the Whisper command line, which is not modelled.
- Transcription.ChunkedTranscriber.SetFormat: takes the sample rate explicitly, where Python defaults it to 48000.

## Findings

| source | as written | input that shows it | evidently intended | confidence | as-written member | corrected member |
|---|---|---|---|---|---|---|
| backend/src/main.py:120 | `safe_text` escapes `"` as `\"` and `'` as `'\''`, then puts the result inside `echo "{text}"`. Inside double quotes `'\''` is not an escape, and `$` and backtick are left to the shell | `it's` is echoed as `it'\''s`; `$(reboot)` is run as a command substitution | the shell reads back exactly the text: a backslash before `$`, backtick, `"` and `\`, and nothing done to `'` | not executed | Handlers.ItsIsMangled | Handlers.EchoQuoteRoundTrip |

The as-written half is `SafeText` and `PiperCommandAsWritten`, with these lemmas:
- `ItsIsMangled`;
- `PiperCommandAsWrittenMangles`;
- `ApostropheIsSpokenEscaped` (every apostrophe, for any plain text holding one);
- `CommandSubstitutionPassesThrough`.

The corrected half is `EchoQuote` and `PiperCommand`, with these lemmas:
- `EchoQuoteRoundTrip`;
- `PiperCommandQuotesText`;
- `EchoQuotePlain` (for plain text without apostrophes the two quotings agree).

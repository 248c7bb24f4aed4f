# DocuMind core: a Dafny model

DocuMind takes PDFs in, runs them through a queue of AI and search stages, and
shows what it found. This project models the parts of it whose correctness
spans several functions or a whole run, and proves what they keep.

| area | files | what is modelled |
|---|---|---|
| PII redaction (ai-service) | `Detection.dfy`, `Redaction.dfy`, `RoundTrip.dfy`, `Luhn.dfy` | `detect`, `redact`, `restore` and the Luhn check. What a regular expression finds is an input: ordered, disjoint, non-empty spans per pattern. |
| Circuit breaker and retry driver (ai-service, processing-service) | `Breaker.dfy`, `Retry.dfy`, `RetryBounds.dfy`, `RetryTrace.dfy`, `DeadlineCap.dfy`, `SharedBreaker.dfy` | The breaker as a function of its event history, both copies of `call_with_resilience`, their accounting, outcomes and wall-clock bounds, and any interleaving of callers behind one breaker. Clock readings, call outcomes, cancellations and jitter are inputs. |
| Chunking and indexing (search-service) | `Windows.dfy`, `Chunking.dfy`, `Indexing.dfy` | The sliding window with its sentence boundaries, chunk numbering over pages, batched embedding, and the upsert store. Vectors are opaque. |
| Document lifecycle (document-service) | `Documents.dfy`, `Service.dfy` | Upload, bulk deletion and bulk reprocessing over table, object store and stream, with a fault possible at every write. |
| Pipeline (processing-service) | `Pipeline.dfy` | One job as a state machine over the steps between two `await`s, with three interleaving enrichment tasks. |
| Text (ai-service, processing-service, frontend) | `Sentences.dfy`, `Normalise.dfy`, `Csv.dfy` | Sentence splitting, PDF text tidying, CSV export. |
| Search palette and library (frontend) | `Highlight.dfy`, `Grouping.dfy`, `Paging.dfy` | Match ranges and fragments, grouped results with caps, paging and its fold. |
| Shared | `Strings.dfy`, `Wrappers.dfy` | `strip`, `replace`, `join`, `indexOf`, decimal numerals; optional values and results. |

Code that works by changing things is a class or a method with loops, proved
against a function of its inputs; the properties are lemmas about that function.
`dafny verify dfyconfig.toml` checks everything.

Where the code and its own words disagree, the model follows the code:

* **"half_open: one trial call is admitted"** (services/ai-service/app/resilience.py:15).
  The code admits every caller until one of them reports (`Breaker.HalfOpenAdmitsEveryCaller`).
* **"`deadline_s` caps the total wall clock"** (services/ai-service/app/resilience.py:143-144).
  It caps when attempts start, and the sleep after an unwrapped exception is not clamped to
  it at all (line 221). `DeadlineCap.DeadlineCapsTotalExactly` says for which settings the
  claim holds; ai-service's defaults are not among them.
* **"overlap must be smaller than chunk_size"** (services/search-service/src/chunking.py:27-28).
  The loop ends on every text exactly when the overlap is at most four fifths of the
  chunk size (`Windows.HaltsOnEveryText`); above that, `Windows.HaltsIffStartsAdvance` says
  on which.
* **"ranges covered by any term"** (frontend/documind/lib/search/rank.ts:125-128).
  The search steps over a whole occurrence, so a term that ends the way it begins can
  stay partly unmarked: for one term, `Highlight.CoversEverywhereExactly`.
* **"20 × 100 = 20 000 documents"** (frontend/documind/lib/server/documents.ts:21-22).
  The fold refuses above 2000 (`Paging.FetchAllExactly`). Since the upstream order leaves
  documents of one upload time in any order, the fold is sure to hold each document once
  exactly when no such group crosses a page end (`Paging.FetchSurvivesTiesExactly`).
* **"Best-effort cleanup when metadata persistence fails"**
  (services/document-service/app/storage/base.py:23-24). The clean-up also runs when the
  row was committed and only its `refresh` failed; the row then stays, without its object
  (`Documents.FailedRefreshLeavesEmptyRow`).

## Model

| member | source | states |
|---|---|---|
| `Luhn.LuhnOk` | services/ai-service/app/redaction.py:69-80 | The left-to-right loop with its parity test accepts exactly what the right-to-left rule of Annex B of ISO/IEC 7812-1 accepts, for digit strings of any length. |
| `Luhn.DetectsSingleDigitError` | services/ai-service/app/redaction.py:69-80 | Changing any one digit of an accepted string makes it rejected. |
| `Luhn.DetectsAdjacentSwap` | services/ai-service/app/redaction.py:69-80 | Swapping two neighbours of an accepted string goes unnoticed if and only if they are equal or are 0 and 9. |
| `Luhn.OneCheckDigit` | services/ai-service/app/redaction.py:69-80 | A digit completes a number to an accepted one if and only if it completes the sum of the number, doubled from its last digit on, to a multiple of ten. |
| `Luhn.LeadingZeroIsIdle` | services/ai-service/app/redaction.py:69-80 | The check reads from the right: a zero in front changes nothing. |
| `Luhn.WeightIsDigitSum` | services/ai-service/app/redaction.py:74-79 | A doubled digit counts with the sum of its two digits. |
| `Detection.Detect` | services/ai-service/app/redaction.py:234-268 | The nested loops over `claimed`, `matches` and `counters` compute the specified match list for every table of patterns and every `_accept`. |
| `Detection.DetectIsSound` | services/ai-service/app/redaction.py:234-268 | Matches are non-empty spans of the text carrying the text they span, ascending, pairwise disjoint, and disjoint from every reserved span. |
| `Detection.DetectIsGreedy` | services/ai-service/app/redaction.py:243-265 | A candidate is selected if and only if it is accepted and overlaps no reserved span and nothing selected for a pattern earlier in the table; nothing else is selected. |
| `Detection.OverlapSharesACharacter` | services/ai-service/app/redaction.py:240-241 | Two spans overlap if and only if some character lies in both. |
| `Detection.GreedyIsUnique` | services/ai-service/app/redaction.py:234-235 | Only one selection obeys that rule, so pattern order alone decides. |
| `Detection.DetectNumbersEachKind` | services/ai-service/app/redaction.py:255-264 | The `j`-th match of a kind, in reading order and also after the sort, carries `[KIND_` and `]` around decimal digits that read as `j`, without a leading zero. |
| `Strings.DecimalReads` | services/ai-service/app/redaction.py:259 | The digits of a number, read from the left, ten times what was read plus the next, give the number, and none of them is a leading zero. |
| `Strings.NumeralIsDecimal` | services/ai-service/app/redaction.py:259 | No other digits do. |
| `Detection.DistinctPlaceholders` | services/ai-service/app/redaction.py:255-264 | No two matches of one run share a placeholder. |
| `Detection.PlaceholderInjective` | services/ai-service/app/redaction.py:259 | `[KIND_n]` names one kind and one number, whatever characters the kind has. |
| `Detection.SortByKind` | services/ai-service/app/redaction.py:267 | Sorting by start keeps each kind's matches as if they were sorted alone. |
| `Redaction.Redact` | services/ai-service/app/redaction.py:271-293 | The splicing loop with its early return yields the text with every match replaced and the dict in insertion order. |
| `Redaction.RedactedStands` | services/ai-service/app/redaction.py:286-293 | Read without the splicing: every placeholder stands where its match stood, moved by what the placeholders before it added, with the unmatched text between them and behind the last one unchanged. |
| `Redaction.Restore` | services/ai-service/app/redaction.py:57-66 | The loop is one leftmost, non-overlapping replacement per entry, in mapping order. |
| `Redaction.TokenNeverStraddles` | services/ai-service/app/redaction.py:259 | A placeholder has its brackets only at its ends, so none of its occurrences straddles the edge of another placeholder. |
| `RoundTrip.RedactedMapping` | services/ai-service/app/redaction.py:282-293 | The mapping lists one entry per match, in reading order. |
| `RoundTrip.RestoreUndoesRedact` | services/ai-service/app/redaction.py:57-66 | Restoring a redaction gives the text back whenever no placeholder generated for it already stands in it. |
| `RoundTrip.RestoreUndoesRedactExactly` | services/ai-service/app/redaction.py:57-66 | With bracket-free values the text comes back if and only if no match's placeholder stands before its match or in a gap behind it. |
| `RoundTrip.RestoreCanFail` | services/ai-service/app/redaction.py:57-66 | A text that holds `[EMAIL_1]` in front of its first address is not given back. |
| `Breaker.RunTracks` | services/ai-service/app/resilience.py:69-105 | After any history under a monotone clock the three fields say: the failures since the last success or reset, closed if and only if these are below the threshold, and the time of the last of them. |
| `Breaker.StreakSteps` | services/ai-service/app/resilience.py:80-105 | A success or a reset ends the streak of failures, a failure adds one to it, and asking leaves it alone. |
| `Breaker.LastFailureStands` | services/ai-service/app/resilience.py:99 | The streak's last failure is in the history, and nothing but questions stands behind it. |
| `Breaker.ShowsWhatIsDue` | services/ai-service/app/resilience.py:63-73 | At any later clock reading the breaker shows the mode that the history alone calls for. |
| `Breaker.RejectsExactly` | services/ai-service/app/resilience.py:75-78 | A call is rejected if and only if the failures since the last success or reset reach the threshold and the last of them is less than `reset_after_s` ago. |
| `Breaker.HalfOpenAdmitsEveryCaller` | services/ai-service/app/resilience.py:75-78 | After the reset interval any number of callers is admitted until one reports. |
| `Breaker.FailedTrialReopens` | services/ai-service/app/resilience.py:90-99 | A failed trial opens the breaker for another full interval. |
| `Breaker.CircuitBreaker.CallAllowed` | services/processing-service/app/resilience.py:102-105 | `allow` answers from the history and adds itself to it. |
| `Breaker.CircuitBreaker.ReadState` | services/processing-service/app/resilience.py:86-100 | `state` answers the mode the history calls for. |
| `Breaker.CircuitBreaker.RecordSuccess` | services/processing-service/app/resilience.py:107-113 | A success closes the breaker and forgets the failures. |
| `Breaker.CircuitBreaker.RecordFailure` | services/processing-service/app/resilience.py:115-128 | A failure counts one more and leaves the breaker open if and only if the threshold is reached. |
| `Breaker.CircuitBreaker.ResetNow` | services/processing-service/app/resilience.py:130-135 | A reset restores the initial fields. |
| `Retry.CallSync` | services/ai-service/app/resilience.py:150-230 | The blocking driver produces the specified trace, ending and finish time, and the breaker's history grows by the admission and one report per recorded call. |
| `Retry.CallAsync` | services/processing-service/app/resilience.py:173-263 | The asyncio driver meets the same specification, with a cancellation possible during any call and any backoff sleep; so without cancellation both copies produce the same trace. |
| `RetryTrace.RunIsLawful` | services/ai-service/app/resilience.py:155-230 | Every event of an admitted run stands where the environment, the policy and the clock put it: each call takes its own time and is recorded when it ends, each sleep is the drawn delay, after a wrapped error at most what is left of the deadline, the next call starts when it ends, and the run ends at the call, sleep or deadline that ends it, with its value, its own error, an outage or an interruption. |
| `RetryTrace.LawfulRunIsUnique` | services/ai-service/app/resilience.py:155-230 | The environment, the policy and the clock leave one such trace and one finish. |
| `RetryTrace.BreakerHearsEachCall` | services/ai-service/app/resilience.py:180-224 | The breaker hears of every call but a cancelled one, once, in order, at the time it ended, and as a success exactly if it returned a value. |
| `RetryTrace.RejectedRunIsEmpty` | services/ai-service/app/resilience.py:150-153 | A rejected call makes no attempt and raises the circuit-open error at once. |
| `RetryBounds.RunIsAccounted` | services/processing-service/app/resilience.py:185-257 | Every call that is not cancelled is followed at once by exactly one breaker record of its result; a cancelled one ends the run unrecorded; there are no other records. |
| `RetryBounds.RunCallCount` | services/ai-service/app/resilience.py:161-173 | A run makes at most `max_retries + 1` calls, and none only when it is already over. |
| `RetryBounds.RunEndsAsCalled` | services/ai-service/app/resilience.py:174-230 | All calls but the last failed temporarily, and the last one, or a cancellation in the sleep behind it, decides the ending: its value, its own error if that is final, a timeout or an outage, and an outage for any other retryable error. |
| `RetryBounds.NonRetryableEscapes` | services/ai-service/app/resilience.py:180-193 | A non-retryable error escapes if and only if the last call raised it. |
| `RetryBounds.ExhaustionIsAnOutage` | services/ai-service/app/resilience.py:226-230 | A timeout escapes if and only if the last call raised that very timeout and no cancellation came after it; every other retryable error an admitted run raises, one without a call included, is an outage. |
| `RetryBounds.GivesUpEarlyOnlyWhenLate` | services/ai-service/app/resilience.py:162-173 | A run gives up before its last attempt only once the deadline has passed. |
| `RetryBounds.TotalTime` | services/ai-service/app/resilience.py:143-148 | If no call takes longer than T, a run ends within `(max_retries + 1) T` plus the largest sleeps, and within deadline plus T, plus one unclamped sleep when unwrapped exceptions occur. |
| `RetryBounds.WorstClosed` | services/ai-service/app/resilience.py:108-116 | That worst total is `(max_retries + 1) T` plus the sum of `min(cap, base * 2**k)` over the sleeps. |
| `DeadlineCap.DeadlineCapsTotalExactly` | services/ai-service/app/resilience.py:143-221 | If no call takes longer than T, the deadline caps the total of every run, unwrapped exceptions included, if and only if it is non-negative and no attempt is made or the worst total without it, calls plus largest sleeps, is within it. |
| `DeadlineCap.DeadlineCapsFriendlyTotalExactly` | services/ai-service/app/resilience.py:143-200 | Over the runs whose every sleep is clamped (only wrapped errors), the same, with calls that take no time as one more case in which it caps. |
| `DeadlineCap.DefaultDeadlineIsNotACap` | services/ai-service/app/resilience.py:143-148 | Three retries of calls of up to 30 seconds under a 45-second deadline can run past it. |
| `SharedBreaker.CallersRunAlone` | services/ai-service/app/resilience.py:150-230 | However callers that share one breaker interleave, each one goes through the run it would make alone: trace, ending and finish depend on the others only through the answer to its own admission, which is the one the history before it calls for. |
| `SharedBreaker.AdmittedByTheFields` | services/ai-service/app/resilience.py:63-78 | Under a monotone clock that answer is what the three fields show at that moment, after all records made before by any caller. |
| `SharedBreaker.HistoryIsWhatRunsReport` | services/ai-service/app/resilience.py:80-105 | The records in the shared history are those in the traces of the callers, each exactly once. |
| `SharedBreaker.EnoughTurnsFinish` | services/ai-service/app/resilience.py:155-230 | A caller that has had two turns more than its policy allows attempts is done, whatever the others do. |
| `Windows.FindWindowEnd` | services/search-service/src/chunking.py:39-50 | The separator loop finds the specified end: inside the text, at most a chunk away, and past four fifths of the chunk unless it is the text's end. |
| `Windows.WindowEndsWithSentence` | services/search-service/src/chunking.py:39-50 | A window within reach of the end of the text ends there. Any other ends behind the last occurrence of the first of `". "`, `".\n"`, `"\n\n"`, `"\n"` that stands in its last fifth, counted in characters, or at its full size if none does. |
| `Windows.TextWindowsRebuildText` | services/search-service/src/chunking.py:38-67 | For any overlap the guard accepts: windows start at 0 and end at the end, are at most `chunk_size` long, share exactly `overlap` characters with the next, and glued together they are the text. |
| `Windows.SomeWindowHolds` | services/search-service/src/chunking.py:38-67 | Every position lies in some window. |
| `Windows.HaltsOnEveryText` | services/search-service/src/chunking.py:27-67 | For an overlap the guard accepts, the loop ends on every text if and only if five times the overlap is at most four times the chunk size. |
| `Windows.HaltsIffStartsAdvance` | services/search-service/src/chunking.py:38-67 | On one text the loop ends if and only if no window it reaches sends the start back or leaves it in place. |
| `Windows.LoopGoesOn` | services/search-service/src/chunking.py:38-67 | On a text on which the loop ends, every window it reaches is the specified one and moves the start forward. |
| `Windows.WindowsFollowTheSource` | services/search-service/src/chunking.py:38-67 | On such a text the windows are the source's: the first begins at the front, each ends where the search ends it, the next begins `overlap` characters before that, and the last ends the text. |
| `Windows.TrapEndsAtNewline` | services/search-service/src/chunking.py:41-50 | Above that bound one newline in otherwise plain text sends the start back to where it was. |
| `Chunking.ChunkText` | services/search-service/src/chunking.py:16-69 | On every text on which the loop ends, it returns fresh chunks: the non-blank stripped windows, numbered from 0 under their document and page; it raises if and only if the overlap reaches the chunk size. |
| `Chunking.ChunksAreTheWindows` | services/search-service/src/chunking.py:52-63 | The chunks are the windows of the stripped text, each stripped, in order, without the blank ones, and nothing else. |
| `Chunking.ChunkIdNames` | services/search-service/src/chunking.py:56 | The id of a chunk is the document's, `_chunk_`, and decimal digits that read as its index. |
| `Chunking.ChunksLoseNothing` | services/search-service/src/chunking.py:52-63 | Every non-whitespace character of the text lies in some chunk, at its own place, and that chunk carries its index, its id, its page and its document. |
| `Chunking.ChunksAreClean` | services/search-service/src/chunking.py:52-53 | Chunks are non-blank, stripped, and no longer than the chunk size. |
| `Chunking.Renumber` | services/search-service/src/chunking.py:78-81 | The in-place loop rewrites index and id of each chunk and nothing else. |
| `Chunking.ChunkMultiPage` | services/search-service/src/chunking.py:72-83 | The chunks of all pages, in page order, numbered densely from 0 over the whole document; only the pages on which the loop never ends are outside the claim. |
| `Chunking.PagesLoseNothing` | services/search-service/src/chunking.py:72-83 | Every non-whitespace character of every page lies in a chunk of that page. |
| `Chunking.ChunkIdInjective` | services/search-service/src/chunking.py:56 | A chunk id names one document and one index, whatever characters the document id holds. |
| `Indexing.EmbedBatch` | services/search-service/src/embeddings.py:106-113 | The stepped loop collects the answers of consecutive slices, stopping at the first error. |
| `Indexing.BatchesKeepOrder` | services/search-service/src/embeddings.py:106-113 | If every call answers one vector per text, batching of any size returns each text's own vector in order. |
| `Indexing.EmbeddingSucceedsExactly` | services/search-service/src/embeddings.py:106-113 | Embedding succeeds if and only if every batch, the texts from a multiple of `max_batch` up to the next, is answered, and otherwise fails with the error of the first that is not. |
| `Indexing.PermittedBatchesSuffice` | services/search-service/src/embeddings.py:106-113 | A service that answers batches of one to `max_batch` texts with each text's own vector is enough: all texts get theirs, so no call carries more texts, or none. |
| `Indexing.PostgresVectorStore.AddChunk` | services/search-service/src/vector_store.py:115-125 | An upsert: a new id gets the row, a known id keeps its page and document. |
| `Indexing.IndexDocument` | services/search-service/src/search.py:27-52 | Chunk, embed, store. Without chunks it succeeds and stores nothing; if a batch is not answered it fails with that error and stores nothing; otherwise it succeeds with the number of chunks. If every permitted batch is answered with each text's own vector, then afterwards every chunk's id holds its text and that text's vector. |
| `Indexing.ChunksAreDense` | services/search-service/src/search.py:29-32 | Chunk `i` of a document carries index `i` and the id that reads as it, for one text and for pages. |
| `Indexing.RowsPairTextsWithTheirVectors` | services/search-service/src/search.py:40-50 | Each stored row pairs a chunk's own text with that text's own vector, given one vector per text. |
| `Indexing.ShortAnswerShiftsVectors` | services/search-service/src/search.py:43 | Without that assumption `zip` can store a later text's vector under an earlier chunk. |
| `Indexing.ReindexingUnchangedContent` | services/search-service/src/vector_store.py:115-125 | Indexing unchanged content again leaves the store as it was. |
| `Indexing.OtherDocumentsUntouched` | services/search-service/src/vector_store.py:115-125 | No chunk of another document changes, whatever the two ids look like. |
| `Indexing.FirstStoringIsExact` | services/search-service/src/search.py:43-50 | A document the store does not know ends up with exactly its rows. |
| `Indexing.StoringReplacesExactly` | services/search-service/src/vector_store.py:119-122 | New content replaces old exactly if and only if it has at least as many chunks and they keep the pages; otherwise stale rows or pages stay. |
| `Documents.KeyInjective` | services/document-service/app/services/documents.py:53 | Two documents never share a storage key. |
| `Documents.CreatingHoldsExactly` | services/document-service/app/services/documents.py:57-66 | Every state an upload passes through has an object for every row, if and only if its clean-up does not erase the object of a committed row or of a taken id. |
| `Documents.CreatingWaitsExactly` | services/document-service/app/services/documents.py:57-84 | After an upload every queued row has its message, if and only if no fault hit between the commit and the message or the failure mark. |
| `Documents.ItemKeepsHeld` | services/document-service/app/services/documents.py:169-182 | Row first, object second: no step of a deletion or a requeue leaves a row without its object. |
| `Documents.ItemWaitsExactly` | services/document-service/app/services/documents.py:199-233 | One id keeps the queue invariant if and only if it does not turn a row to queued and then lose both the message and the failure mark. |
| `Documents.BatchWaitsExactly` | services/document-service/app/services/documents.py:189-238 | The same for a whole request: it breaks the invariant if and only if some id it reaches does, and then it has raised. |
| `Documents.DeletionRaisesExactly` | services/document-service/app/services/documents.py:169-183 | A deletion raises if and only if some id, at its first mention, names a row whose deletion or whose object's erasure raises. |
| `Documents.RequeueRaisesExactly` | services/document-service/app/services/documents.py:199-236 | A requeue raises if and only if some id names a row and its reset, its size look-up, its publishing with anything but a Redis error, or its failure mark after one raises. |
| `Documents.DeletionAnswersEachId` | services/document-service/app/services/documents.py:169-187 | A deletion that returns counts the requested ids, lists each id that named a row at its first mention under `succeeded` and every other as an unknown document, in the order of the request. |
| `Documents.RequeueAnswersEachId` | services/document-service/app/services/documents.py:199-242 | A requeue that returns lists the ids whose message Redis accepted and gives every other its file name and reason, or calls it unknown, in the order of the request. |
| `Documents.DeletedRows` | services/document-service/app/services/documents.py:164-187 | A deletion that returns removed exactly the listed rows. |
| `Documents.DeletionVerdict` | services/document-service/app/services/documents.py:169-183 | An id succeeds if and only if it named a row and stands in the list for the first time. |
| `Documents.DeletingAgainFindsNothing` | services/document-service/app/services/documents.py:164-187 | The same deletion again changes nothing and reports every id missing. |
| `Documents.RequeueVerdict` | services/document-service/app/services/documents.py:199-234 | An id succeeds if and only if it named a row and Redis accepted its message; otherwise it is missing or carries its file name. |
| `Documents.AnswerSplitsInOrder` | services/document-service/app/services/documents.py:185-187 | Succeeded and failed split the requested ids in order, each id in exactly one list, and their counts sum to `requested`. |
| `Documents.CreatingKeepsFaithful` | services/document-service/app/services/documents.py:68-79 | An upload under a fresh id keeps every message true to its row and object. |
| `Documents.ItemKeepsFaithfulExactly` | services/document-service/app/services/documents.py:208-224 | A requeue repeats the upload's message if and only if the store reports the size of a non-empty object. |
| `Documents.RequeuesRepeatTheUpload` | services/document-service/app/services/documents.py:189-195 | Over any run without reused ids, wrong clean-ups or missing sizes, all messages about a row are equal: a reprocessed job is the uploaded one. |
| `Documents.RunHoldsExactly` | services/document-service/app/services/documents.py:50-238 | In every state of every run of uploads, bulk requests and worker steps each row has its object, if and only if no upload of the run erased the object of an existing row. |
| `Documents.RunWaitsExactly` | services/document-service/app/repositories/documents.py:32-94 | Between the requests of every run each queued row has a message published since it became queued, or given back by a worker, if and only if no request stranded one. |
| `Documents.FailedRefreshLeavesEmptyRow` | services/document-service/app/repositories/documents.py:47-50 | A failing `refresh` after the commit leaves a queued row with neither object nor message. |
| `Documents.FailedSizeStrandsRow` | services/document-service/app/services/documents.py:199-209 | A size look-up that raises turns a completed document into a queued one without a message. |
| `Service.DocumentService.Create` | services/document-service/app/services/documents.py:50-86 | The use case passes through exactly the specified states and gives the specified answer, for every combination of faults. The first call that does not go through decides the answer. It answers success if and only if all writes went through under a fresh id, and then table, store and stream have grown by exactly the row, the object and the message of the upload. |
| `Service.DocumentService.BulkDelete` | services/document-service/app/services/documents.py:164-187 | The deletion loop passes through exactly the specified states; it raises if and only if an id fails, and otherwise the listed rows are gone and each id is answered. |
| `Service.DocumentService.BulkReprocess` | services/document-service/app/services/documents.py:189-242 | The same for reprocessing. |
| `Service.DocumentService.Submit` | services/document-service/app/services/documents.py:68-84 | Publish, and on a Redis error mark the row failed. |
| `Pipeline.ReachableInvariant` | services/processing-service/app/pipeline.py:94-307 | In every state any interleaving reaches: the skipped stages are, once each, the ended stages whose call failed or whose summary is not usable; `degraded` says whether an ended stage's response was; no stage begins without a parsed document, none of the gathered ones before classification ended, none ends before it began, the index call stands behind the ends of all four, and nothing happens twice. |
| `Pipeline.RunReturnsExactly` | services/processing-service/app/pipeline.py:94-147 | A run that is over and was not cancelled returned if and only if fetch, text extraction and indexing succeeded and every stage failed in its call, had no usable summary, or wrote its result. |
| `Pipeline.ReturnedResultIsExact` | services/processing-service/app/pipeline.py:70-79 | A returned result lists exactly the stages whose call failed or whose summary is not usable, each once, `degraded` is the OR over all responses, and indexing was called once, after all stages. |
| `Pipeline.InterleavingsAgree` | services/processing-service/app/pipeline.py:127-132 | Two interleavings of the same answers agree on the outcome, on `degraded`, and on the skipped stages up to order. |
| `Pipeline.EveryScheduleEnds` | services/processing-service/app/pipeline.py:94-147 | No interleaving takes more than 13 steps. |
| `Pipeline.NeverStuck` | services/processing-service/app/pipeline.py:127-132 | Until it is over a run can always take a step without being cancelled. |
| `Pipeline.StepsEnabledExactly` | services/processing-service/app/pipeline.py:127-132 | Gathered stages can move in any order once classification has ended, also after one of them failed the run; the run itself waits for all of them, or for one that raised. |
| `Pipeline.JobRun.FinishStage` | services/processing-service/app/pipeline.py:193-307 | The code behind an enrichment `await` changes the shared result as specified. |
| `Pipeline.JobRun.AdvanceRun` | services/processing-service/app/pipeline.py:94-147 | `run` from one `await` to the next takes the specified step. |
| `Sentences.UnwrapLeavesParagraphBreaks` | services/ai-service/app/analysis/text.py:45-49 | The newlines that are left come in runs of two or more. |
| `Sentences.ScanIsTheEngines` | services/ai-service/app/analysis/text.py:61 | In unwrapped text the greedy scan stops where a backtracking engine does, which tries longer bodies first and then the branches in order: its first try succeeds. |
| `Sentences.EngineTakesOne` | services/ai-service/app/analysis/text.py:61 | The engine's order leaves one match for a position. |
| `Sentences.Split` | services/ai-service/app/analysis/text.py:52-68 | The loop over the matches returns the specified offsets and sentences. |
| `Sentences.SentencesAreTheMatches` | services/ai-service/app/analysis/text.py:61-68 | The sentences are the matches of the pattern, each stripped and at its own offset, and every match that is not blank is one. |
| `Sentences.SentencesStandInOrder` | services/ai-service/app/analysis/text.py:61-68 | Sentences stand in the unwrapped text at their offsets, non-blank, stripped, one behind the other. |
| `Sentences.NothingIsLost` | services/ai-service/app/analysis/text.py:52-68 | Every character that is neither whitespace nor one of `.`, `!`, `?` lies in exactly one sentence. |
| `Sentences.NothingIsMoved` | services/ai-service/app/analysis/text.py:55-57 | Character `k` of a sentence at offset `o` is character `o + k` of the source, except that a newline without a newline beside it reads as a space. |
| `Normalise.NormalisedIsCanonical` | services/processing-service/app/extraction/pdf.py:114-122 | The result has no NUL, no tab or doubled space, stripped lines, never three newlines in a row, and no whitespace at its ends. |
| `Normalise.CanonicalMeans` | services/processing-service/app/extraction/pdf.py:114-122 | In characters: no NUL, tab, return, form feed or vertical tab, no two spaces and no three newlines in a row, no whitespace beside a newline but a newline, and none at the ends. |
| `Normalise.FixedPointsAreCanonical` | services/processing-service/app/extraction/pdf.py:114-122 | Normalising leaves a text alone if and only if it has that form. |
| `Normalise.NormalisingTwiceIsOnce` | services/processing-service/app/extraction/pdf.py:114-122 | Normalising is idempotent. |
| `Normalise.NormalisedKeepsInk` | services/processing-service/app/extraction/pdf.py:114-122 | Only whitespace and NULs are removed; every other character stays, in order. |
| `Normalise.NormalisedKeepsShape` | services/processing-service/app/extraction/pdf.py:114-122 | Every visible character keeps what separates it from the one before: nothing, whitespace within a line, one line break, or more than one. So no word, line or paragraph is joined to another or split. |
| `Normalise.ExtractText` | services/processing-service/app/extraction/pdf.py:83-111 | The page loop returns the normalised pages and their joined text, or refuses a text that is too short. |
| `Normalise.DocumentTextIsCanonical` | services/processing-service/app/extraction/pdf.py:96 | The text of all pages has the canonical form too, so its last `strip` changes nothing. |
| `Normalise.DocumentTextKeepsInk` | services/processing-service/app/extraction/pdf.py:84-96 | No visible character of any page is lost on the way into the text. |
| `Normalise.DocumentTextKeepsShape` | services/processing-service/app/extraction/pdf.py:84-96 | The same for the text of all pages, in which every page begins a paragraph. |
| `Csv.ExportReadsBack` | frontend/documind/lib/api.ts:513-519 | A reader for the quoting rules of section 2 of RFC 4180, with LF between records, recovers the header and every cell, for plain headers and rows of one cell or more. |
| `Csv.ExportIsInjective` | frontend/documind/lib/api.ts:513-519 | Two such exports with the same text hold the same table. |
| `Csv.CellQuotesWhenNeeded` | frontend/documind/lib/api.ts:514-517 | A cell is printed as it is if and only if it holds no quote, comma or newline; otherwise it is quoted. |
| `Csv.ExportReadsBackExactly` | frontend/documind/lib/api.ts:513-519 | For all headers and rows, that reader gives the table back if and only if there is a header, every header is plain (no comma, quote or newline) and no row is empty. |
| `Highlight.FindRanges` | frontend/documind/lib/search/rank.ts:129-142 | The search loops with their cap push the specified ranges. |
| `Highlight.OneTermMore` | frontend/documind/lib/search/rank.ts:129-142 | A term adds its leftmost occurrences, each searched for behind the one before, and all of them unless the list grows past 200; the range that makes it do so is the last one, and a later term adds one at most. |
| `Highlight.MatchRanges` | frontend/documind/lib/search/rank.ts:129-154 | The returned ranges are in bounds, ascending, strictly apart, and cover exactly the positions the found ranges cover. |
| `Highlight.CoversWhatMatches` | frontend/documind/lib/search/rank.ts:125-142 | Below the cap, for terms without a border, a position is covered if and only if some occurrence of some term spans it. |
| `Highlight.CoversEverywhereExactly` | frontend/documind/lib/search/rank.ts:125-142 | For a query of one term: it is covered wherever it occurs, on all texts below the cap, if and only if it has no border. |
| `Highlight.DoubledHidesItsEnd` | frontend/documind/lib/search/rank.ts:138-141 | A bordered term written over its own border leaves the end of its second occurrence unmarked. |
| `Highlight.Render` | frontend/documind/components/search/search-highlight.tsx:13-44 | The fragments spell the text, and the marked ones are the ranges' slices, in order. |
| `Highlight.HasWordStart` | frontend/documind/lib/search/rank.ts:67-75 | True if and only if some occurrence of the term, overlapping ones included, starts a word. |
| `Grouping.CollapseConserves` | frontend/documind/lib/api.ts:950-969 | One row per key, showing the first entry with it and counting all of them: the sum of `1 + also` is the number of scored entries. |
| `Grouping.KeysTell` | frontend/documind/lib/api.ts:957-958 | Two findings, or two fields, share a row if and only if they share a title; other entries only by their id; a finding and a field never. |
| `Grouping.RowsKeepOrder` | frontend/documind/lib/api.ts:950-969 | Rows stand in the order of the entries they show. |
| `Grouping.KindsPartition` | frontend/documind/lib/api.ts:966-968 | The five lists hold every row, each in the list of its own kind and in no other, in the order of the rows, and their lengths add up to the number of rows. |
| `Grouping.ShowSuppressesNothing` | frontend/documind/lib/api.ts:885-893 | Groups come in display order, each a non-empty prefix of its kind's rows with `hits + more` equal to their number; at most 20 rows are shown; the total cap trims no group but the last and silences no kind. |
| `Grouping.TotalShown` | frontend/documind/lib/api.ts:885-893 | The number of rows shown is the least of 20 and what the kinds show up to 4 pages, 6 documents, 5 sections, 4 findings and 4 fields. |
| `Grouping.GroupsFollowDisplayOrder` | frontend/documind/lib/search/types.ts:76 | Pages come before documents, sections, findings and fields. |
| `Grouping.PaletteIsComplete` | frontend/documind/lib/api.ts:948-1003 | All of it together, for any scored list. |
| `Grouping.GroupScored` | frontend/documind/lib/api.ts:948-1003 | The two loops over maps and budget compute that list. |
| `Paging.FetchAllExactly` | frontend/documind/lib/server/documents.ts:66-89 | With one order for all requests, the fold over the service's pages returns the whole library in that order if and only if it holds at most 2000 documents, and otherwise refuses. |
| `Paging.FetchSurvivesTiesExactly` | services/document-service/app/repositories/documents.py:55-63 | With documents of equal `uploaded_at` in a new order for each page request, the fold holds every document exactly once whatever the orders if and only if no group of equal times crosses the end of a page. |
| `Paging.PagesRebuild` | services/document-service/app/repositories/documents.py:55-63 | The pages 1 up to the page count, one behind the other, are the whole list. |
| `Paging.SortedIsSorted` | frontend/documind/lib/server/documents.ts:111-117 | The sort orders by the key, falling or rising as asked, and keeps every document. |
| `Paging.SortIsStable` | frontend/documind/lib/server/documents.ts:111-117 | Documents with equal keys keep the order in which they came, in both directions. |
| `Paging.AnswerIsItsPage` | frontend/documind/lib/server/documents.ts:119-130 | An answer holds the slice its page numbers out of the sorted selection, counts the selection and its pages, and gives the last page for any page past it. |
| `Paging.WalkShowsEverySelected` | frontend/documind/lib/server/documents.ts:100-130 | Up to 2000 documents, walking through all pages of a query shows each document with the asked kind and status and the search text in its name, id or counterparty exactly as often as it is there, in the asked order across page ends, equal keys in the order of the library. |

## Left out

- Chunking.ChunkText: asks that the loop ends on the text; on any other the start comes back to where it was or falls in front of the text (`Windows.HaltsIffStartsAdvance`), and what the source does with a negative start is not modelled, nor are negative sizes.
- Retry.CallAsync: the wording of the outage raised for another error is not modelled, only that it is one.
- Windows.TextWindowsRebuildText: on a text on which the loop does not end, the windows are those of a rule that moves on where the source does not.
- Windows.HaltsOnEveryText: takes `int(0.8 * chunk_size)` as the integer part of four fifths, without the rounding of binary floating point.
- Retry.CallSync: the time the driver itself spends is zero and sleeps are exact.
- RetryBounds.TotalTime: times are real numbers; floating-point rounding of clocks and delays is not modelled.
- RoundTrip.RestoreUndoesRedactExactly: the direction from round trip to condition needs values without brackets, as the patterns of the service yield.
- Detection.Detect: regular expressions and `_accept` are inputs; the national-id checks and the exact patterns are not modelled.
- Redaction.Restore: restoring an answer built from several redacted passages (services/ai-service/app/routes/answer.py) is not modelled, since numbering restarts with each passage.
- Indexing.IndexDocument: the lazily built module-level embedder and store are parameters, and the foreign key from chunks to documents is not modelled.
- Indexing.PostgresVectorStore.AddChunk: a database error in the middle of the storing loop is not modelled.
- Documents.RunHoldsExactly: requests follow one another; two requests whose database and storage calls interleave are not modelled, and neither is a process that dies in the middle of a request.
- Documents.RunWaitsExactly: the worker is an environment that sets the status of a document whose message it holds; its acknowledgements, retries and dead letters are not modelled.
- Service.DocumentService.Create: validation of the file name and of the PDF header, and the size look-up for the answer's own fields, are not modelled.
- Pipeline.ReachableInvariant: a response is taken to be a JSON object; progress markers, counts, the document type, metrics and spans are left out; after a cancellation the gathered tasks stop at once.
- Normalise.ExtractText: parsing and decrypting the PDF are not modelled; the text of each page is an input.
- Csv.ExportReadsBack: cells are taken after `String`.
- Highlight.MatchRanges: takes the lowercased text as given and assumes that lowercasing keeps its length.
- Highlight.CoversEverywhereExactly: is about one term and texts below the cap; for a list of terms `Highlight.CoversWhatMatches` gives the direction from unbordered terms, which is not necessary, since another term can cover what one misses.
- Grouping.GroupScored: rows shared by the two maps are positions in one list instead of shared objects; labels, snippets and links are left out.
- Paging.WalkShowsEverySelected: pages are integers, the library does not change between requests, and the locale's string order is an integer rank per document.
- The in-memory vector store, which appends instead of upserting, and vector search with its similarity scores: an append log has no identities to keep.
- Scoring of palette entries, snippets, and tokenising queries: each is settled by one formula or one split.
- The Redis consumer, the job repository, dead letters and graceful shutdown.
- HTTP routes and clients, proxies, authentication, provider adapters, configuration, logging, metrics, tracing, deployment.
- React components other than the highlighter's slicing, mock data and the simulated sign-in.
- Risk bands, verdict thresholds, status labels and error envelopes: one branch settles each.

# Purr: what its storage, commits, uploads and codecs keep

Purr is an HTTP client. It captures response bodies into a native store and reads them back in windows, line
pages, previews and search pages; it saves workspaces together with secrets under optimistic revisions and
operation receipts; it stages uploads as encrypted frames and streams them through a bounded pipe; and it has a
few algorithms that many features rest on. This project models those parts in Dafny and proves what each
operation, each protocol and each chain of pages keeps.

| file | part of the program |
|---|---|
| `Bytes.dfy` | bytes, lines, and UTF-8 well-formedness (section 4 of RFC 3629) |
| `ContentRows.dfy`, `ContentStore.dfy` | chunk rows, window reads, and the response content store |
| `ContentLines.dfy`, `ContentPreview.dfy`, `ContentSearch.dfy`, `LineStatistics.dfy` | the paged readers of one content |
| `CapturePipeline.dfy` | network capture, bounded job queue and store worker, as a state machine |
| `SecretStore.dfy`, `CommitRecovery.dfy` | secret commits, staged overlays, lost replies |
| `BrowserBackend.dfy` | the browser database: publications, commits of interleaving clients, deletion |
| `WorkspaceMerge.dfy` | the three-way merge of a project edited on both sides |
| `UploadFile.dfy`, `UploadPipe.dfy` | encrypted upload frames, their reader, and the pipe to the network |
| `Template.dfy`, `SecretVariables.dfy` | template references, and the walk over variables that refer to each other |
| `RequestCodec.dfy` | the compact form of a request editor |
| `History.dfy` | the history index and its cursor paging |

SQLite and IndexedDB tables are maps and sequences, and a transaction is one step. Objects that the program updates
in place are classes whose methods are proved against functions of the old state; protocols with several parties are
state machines whose invariant is kept by every step. A cipher is an inverse pair keyed by its context: only what was
sealed for a context opens under it. Random identifiers, clocks, failing writes, lost messages and cancellations are
parameters or nondeterministic steps.

Some statements one might expect of the program do not hold of its code. Each has a lemma with an input at which it
fails, and is replaced by the exact condition under which it holds:

- `read_lines` fails on some well-formed text: a character that straddles the end of a page's byte budget
  (`ContentLinesLimit.WellFormedTextCanFail`). `ContentLines.ReadLines` says exactly when a page is returned. Previews
  have no such gap: from the start no chain of them ever fails (`ContentPreview.PreviewNeverFails`).
- Search does not report every occurrence of a pattern that overlaps itself (`SearchModel.BorderHidesOccurrence`). It is
  exact on all contents exactly for patterns without a border (`SearchModel.SearchExactExactlyWithoutBorder`).
- `commitConfirmed` can throw an ordinary error for a commit that took place: when the reply was lost and reading the
  committed state back fails (`CommitRecovery.UnreadableCommitThrows`). `CommitRecovery.Settled` gives the condition of
  every ending.
- A commit that is a repetition, noticed only while publishing, is answered with files that may be out of date
  (`BrowserClients.RepeatedReplyCanBeStale`). `BrowserClients.RepeatedReplyIsCurrent` says exactly when they are not.
- A request editor with a key of its own named like the format's version key does not come back from its compact form
  (`RequestCodec.RoundTrip`).
- An upload reader that is asked again after an error can hand out bytes from a stale position
  (`UploadFile.StaleBytesAfterDamage`); until the first error it delivers only the staged bytes
  (`UploadFile.EncryptedReader.Read`).
- A request body that is polled again after it reported a failure answers as at an end (`UploadPipe.FailureThenEnd`);
  an answer like an end means the end exactly when no failure was reported before (`UploadPipe.EndAnswerMeans`).

## Model

| member | source | states |
|---|---|---|
| ContentRows.Open | src-tauri/src/content/store.rs:441-460 | a chunk opens only under the workspace, content, index, offset and length it was sealed for, and to what was sealed |
| ContentRows.ContextTextTells | src-tauri/src/content/store.rs:1008-1010 | the text of a chunk's associated data determines workspace, content, index, offset and length, as long as names contain no bar |
| ContentStore.AcceptedNamesTell | src-tauri/src/content/store.rs:1008-1035 | so it does for every workspace and content name the store accepts |
| ContentStore.DrawnIdIsValid | src-tauri/src/content/store.rs:155-163 | every identifier the store draws is one it accepts |
| ContentStore.ResponseContentStore.StoredSealed | src-tauri/src/content/store.rs:234-256 | at rest, every chunk of an encrypted content is sealed for that content and its place in it |
| ContentRows.AssembleSound | src-tauri/src/content/store.rs:405-473 | whatever rows were lost, a window read never returns anything but the exact slice of the appended bytes |
| ContentRows.AssembleIntact | src-tauri/src/content/store.rs:405-473 | with all rows present every window read succeeds with exactly its slice |
| ContentRows.AssembleDamaged | src-tauri/src/content/store.rs:405-473 | a nonempty window read succeeds if and only if no row overlapping the window was lost |
| ContentStore.SealChunks | src-tauri/src/content/store.rs:234-265 | the rows after an append tile the old bytes followed by the new ones, with consecutive indexes and bounded chunks |
| ContentStore.ResponseContentStore.CreateStaging | src-tauri/src/content/store.rs:146-185 | exactly the expired rows go, and the new content is empty, staging, of the workspace and protection asked for, and expires after the staging time; on an error nothing changes |
| ContentStore.ResponseContentStore.Append | src-tauri/src/content/store.rs:187-271 | succeeds exactly for writable content within both limits and a committing transaction, and then the content is its old bytes followed by the new and its rows are the old ones with bounded ones behind; otherwise nothing changes; tiling and limits are kept |
| ContentStore.ResponseContentStore.Finish | src-tauri/src/content/store.rs:273-286 | staging content becomes ready with the same bytes, even when reading its metadata back then fails |
| ContentStore.ResponseContentStore.Release | src-tauri/src/content/store.rs:923-932 | removes exactly that content unless it is adopted; harmless when repeated |
| ContentStore.ResponseContentStore.CleanupExpired | src-tauri/src/content/store.rs:934-936 | removes exactly the unadopted contents whose expiry has passed |
| ContentStore.ResponseContentStore.Adopt | src-tauri/src/persistence/response_bodies.rs:3-61 | succeeds exactly for ready content of that workspace and length, one per execution, or for content that execution already adopted; it then belongs to the execution and no longer expires, its bytes untouched |
| ContentModel.ReadyBytesNeverChange | src-tauri/src/content/store.rs:187-286 | over any run of operations the bytes of ready content never change while its row exists, and adopted content stays adopted |
| ContentStore.ResponseContentStore.ReadPlainRange | src-tauri/src/content/store.rs:405-473 | on an intact store a window is exactly the slice of the concatenated appends, clipped at the end |
| ContentStore.ResponseContentStore.ReadOperationContent | src-tauri/src/content/store.rs:859-876 | reading window after window gives the whole content for every window limit but zero |
| ContentLines.ReadLines | src-tauri/src/content/store.rs:475-591 | on well-formed text a page is returned exactly when no character straddles its byte budget or the segment limit is reached first; it then starts at the next character border, every segment reaches as far as its line, its longest length or the budget let it, and the page ends only at its budget or at the limit asked for |
| ContentLines.CutSegments | src-tauri/src/content/store.rs:526-590 | the segments of one page are consecutive pieces of lines on character borders, at most the limit of them |
| ContentLines.StuckAtStop | src-tauri/src/content/store.rs:531-542 | inside a page cutting can only fail at a character that straddles the page's stop |
| ContentLines.LeadingAligns | src-tauri/src/content/store.rs:511-517 | skipping at most three continuation bytes lands on the next character border |
| Utf8.WellFormedIsEncoded | src-tauri/src/content/store.rs:531-534 | text is well formed exactly when it is the encoding of Unicode scalar values |
| LineModel.ChainRebuilds | src-tauri/src/content/store.rs:475-591 | the byte ranges of any chain of pages, with one newline in each gap, rebuild the whole content |
| LineModel.FlagsPair | src-tauri/src/content/store.rs:519-571 | a segment continues to the next exactly when the next continues from it, across page borders too |
| LineModel.CursorsIncrease | src-tauri/src/content/store.rs:577-590 | cursors strictly increase along a chain, so every chain ends |
| LineModel.NextPage | src-tauri/src/content/store.rs:484-517 | a page read from the last page's cursor extends the chain |
| ContentLinesLimit.WellFormedTextCanFail | src-tauri/src/content/store.rs:518-542 | one well-formed content whose first page fails for every limit above twelve |
| ContentPreview.ReadPreviewLines | src-tauri/src/content/store.rs:595-692 | on well-formed text a preview page from a character border never fails, and satisfies `PreviewModel.PageOk`: one row for each line, each with as much text and suffix as its limits allow, until the limit asked for |
| ContentPreview.PreviewNeverFails | src-tauri/src/content/store.rs:595-692 | on well-formed text, from the start and with any limits, every reply to a client that follows the cursors is a page, the pages are a chain, and there are at most as many as bytes |
| PreviewModel.NextCursorIsBorder | src-tauri/src/content/store.rs:679-692 | the cursor of a preview page is again a character border |
| ContentPreview.FinishLine | src-tauri/src/content/store.rs:637-668 | a row is its text up to the last character border within 96 bytes, exactly the hidden bytes, and its suffix from the first border behind both those 96 bytes and the last 32 |
| PreviewModel.ChainYieldsEveryLine | src-tauri/src/content/store.rs:595-692 | a preview chain yields every line exactly once, in order, whatever the limits of its pages |
| PreviewModel.LinesAreSplit | src-tauri/src/content/store.rs:595-692 | those lines are the pieces between newlines, without the empty piece behind a final newline |
| PreviewModel.PreviewedLinesJoin | src-tauri/src/content/store.rs:595-692 | the previewed lines, joined by newlines, are the whole content, less one final newline |
| ContentSearch.SearchPages | src-tauri/src/content/store.rs:694-805 | for any window and page size, a page is exactly `SearchModel.PageAt`, its matches are strictly increasing true occurrences that cover everything before its cursor, and it is returned whenever the pattern and cursor are in range and nobody cancels |
| ContentSearch.Search | src-tauri/src/content/store.rs:694-805 | the same, success included, for the window and page sizes the program uses |
| SearchModel.ChainCovers | src-tauri/src/content/store.rs:694-805 | along a chain of pages every occurrence is reported or overlaps a reported one, and reports strictly increase |
| SearchModel.ChainIsExact | src-tauri/src/content/store.rs:694-805 | for a pattern without a border the reports are exactly all occurrences |
| SearchModel.ReportsMean | src-tauri/src/content/store.rs:694-805 | whatever the windows, all reports from a start on are strictly increasing true occurrences, and every occurrence is one or overlaps one |
| SearchModel.PageAtOk | src-tauri/src/content/store.rs:694-805 | the page of any start, window and page size is what a search page has to be |
| SearchModel.FollowIsChain | src-tauri/src/content/store.rs:694-805 | following the cursors from any start ends, and gives a chain of pages |
| SearchModel.ExactExactlyWithoutBorder | src-tauri/src/content/store.rs:694-805 | search finds exactly the occurrences on every content if and only if the pattern has no border, for any page size and any window of at least twice the pattern |
| SearchModel.SearchExactExactlyWithoutBorder | src-tauri/src/content/store.rs:694-805 | the same for the program's window and page sizes and every pattern it accepts |
| SearchModel.OverlapIsBorder | src-tauri/src/content/store.rs:765-798 | two overlapping occurrences show a border of the pattern |
| SearchModel.BorderHidesOccurrence | src-tauri/src/content/store.rs:694-805 | for every pattern with a border there is content with an occurrence that no page reports, for any page size and any window of at least twice the pattern |
| LineStatistics.ScanMeaning | src-tauri/src/http/transport.rs:36-49 | the running counters are the newline count, the open line's length and the longest closed line of what was seen |
| LineStatistics.ScanResult | src-tauri/src/http/transport.rs:51-58 | the reported count and length are those of splitting at newlines |
| LineStatistics.ObserveAll | src-tauri/src/http/transport.rs:28-58 | any split of a body into network chunks gives the line count and longest line of the body |
| LineStatistics.StoredLineStatistics | src-tauri/src/content/store.rs:304-333 | any window size gives the same two numbers for stored content |
| CapturePipeline.StepKeeps | src-tauri/src/http/transport.rs:489-591 | every step of capture loop, queue, worker, other clients and cancellation keeps the invariant |
| CapturePipeline.CaptureSafe | src-tauri/src/http/transport.rs:489-591 | in every interleaving, measured by the chunks the network gave: content past staging is exactly those bytes, after the network's end, with every write acknowledged; stored bytes stay within the limit; at most two writes are in flight, in full batches but for a last one; success means that, with no release queued; a capture gives up only for a cause among its steps; a failed one whose worker lives has had its release executed, and leaves a row only if that release failed; after a release no row is left and no job that could bring one back |
| CapturePipeline.StepFailsReleased | src-tauri/src/http/transport.rs:565-591 | no step lets a capture fail while its worker lives before its release was queued and answered |
| CapturePipeline.StepTraces | src-tauri/src/http/transport.rs:489-591 | every step keeps received bytes, batches, failures and the end of the network tied to the steps taken so far |
| CapturePipeline.NeverStuck | src-tauri/src/http/transport.rs:489-591 | a capture that has not ended and does not wait for the network always has a step of its own, the queue or the worker to take |
| CapturePipeline.OneChunkSucceeds | src-tauri/src/http/transport.rs:489-577 | undisturbed, a capture of any one chunk within the limits succeeds, its content ready with that chunk's bytes |
| CapturePipeline.CancelIsFinal | src-tauri/src/http/transport.rs:502-577 | whatever a capture waits for it can be cancelled, and then no later step makes it succeed |
| CapturePipeline.ReadyHoldsAll | src-tauri/src/content/actor.rs:41-101 | content becomes ready only after every queued append was executed and succeeded |
| SecretModel.BuiltRefScope | src/storage/secrets.ts:10-20 | a reference built from owner, kind and path of allowed characters and length is protected by that owner's scope, or by none when a path segment is empty |
| SecretModel.ScopeOwner | src/storage/secrets.ts:15-20 | the scope of a reference belongs to the first name after its prefix |
| SecretModel.ScopedRefIsBuilt | src/storage/secrets.ts:10-20 | every reference with a scope is built from an owner, a kind and a path of allowed characters without empty segments |
| SecretModel.AcceptedExactly | src/storage/secrets.ts:52-60 | validation passes exactly when the references are different, scopes match and every expected revision is current |
| SecretModel.ComplaintBlames | src/storage/secrets.ts:52-60 | the error names what is wrong with the first mutation that is not acceptable: scope, repetition or unsafe revision, or a changed revision |
| SecretModel.PutAllReads | src/storage/secrets.ts:65-69 | after a publication each mutated reference holds its new value one revision on, and no other reference changed |
| SecretModel.RunRevises | src/storage/secrets.ts:44-76 | over any run of commits revisions never go back, and no value changes without its revision |
| SecretModel.AppliedAtMostOnce | src/storage/secrets.ts:44-76 | of all requests that change one reference from one revision, at most one takes effect |
| SecretModel.ForkedRetriesApplyOnce | src/storage/secrets.ts:149-154 | a prepared save and its forked retries take effect at most once between them |
| SecretModel.ReplayChangesNothing | src/storage/secrets.ts:44-51 | repeating a published operation at any later time changes nothing |
| SecretModel.RefusalStays | src/storage/secrets.ts:44-51 | a refused operation stays refused: nothing is ever published under its identifier |
| SecretModel.SaveReadsBack | src/storage/secrets.ts:142-190 | a save whose baselines still hold is accepted unless a revision left the safe integers, and then every reference reads as it read through the preparation store |
| SecretModel.StaleSaveRejected | src/storage/secrets.ts:142-190 | if a reference to be changed was changed by any run of other commits meanwhile, the save is rejected and values and revisions are untouched |
| SecretModel.MutationsMean | src/storage/secrets.ts:182-189 | a batch mutates different references, each from its baseline revision to its staged value |
| SecretModel.MutationsCover | src/storage/secrets.ts:182-189 | every staged value that differs from its baseline is in the batch |
| SecretStore.MemorySecureStore.CommitWith | src/storage/secrets.ts:44-76 | outcome and whole new state of a commit, tied to `SecretModel.Outcome` and `SecretModel.After` |
| SecretStore.MemorySecureStore.Validate | src/storage/secrets.ts:52-60 | the checking loop finds the first complaint, if any |
| SecretStore.CachedSecureStore.ReadRef | src/storage/secrets.ts:120-124 | while all changes go through the cache, every read is what the source holds, and is kept |
| SecretStore.CachedSecureStore.CommitBatch | src/storage/secrets.ts:133-138 | the cache is empty after every commit, successful or not |
| SecretStore.SecretPreparationStore.Stage | src/storage/secrets.ts:177-178 | staging keeps one baseline per reference and remembers the order of first staging; bad references change nothing |
| SecretStore.SecretPreparationStore.ReadRef | src/storage/secrets.ts:155-164 | reads show the staged value over the baseline and never change a known baseline |
| SecretStore.SecretPreparationStore.MakeBatch | src/storage/secrets.ts:182-189 | the batch is `SecretModel.MutationsOf` of baselines and staged values |
| SecretStore.SecretPreparationStore.Fork | src/storage/secrets.ts:149-154 | a fork keeps baselines and staged values under a new identifier |
| CommitRecovery.CommitConfirmed | src/application/workspace-persistence.ts:111-122 | for an identifier of its own, returning normally means committed, and each other ending holds exactly under the condition `CommitRecovery.Settled` gives; the cache is empty afterwards |
| CommitRecovery.CommittedWhenAccepted | src/application/ports/credentials.ts:41-49 | a rejection for conflict is exactly the case of an identifier used for something else |
| CommitRecovery.UnreadableCommitThrows | src/application/workspace-persistence.ts:476-478 | one commit that took place and still ends in an ordinary error: reply lost, files not readable |
| CommitRecovery.SavedAtMostOnce | src/application/workspace-persistence.ts:309-318 | however often one save is sent, under whatever identifiers and with any requests and replies lost, its mutations take effect at most once |
| BrowserModel.ProbesMeanHolds | src/storage/browser-backend.ts:194-220 | the checks of a publication pass one by one exactly when all records, revisions and memberships are as expected |
| BrowserModel.PutFilesGet | src/storage/browser-backend.ts:391 | each path ends with the content of its last change, every other path keeps its file |
| BrowserModel.PutRowsFind | src/storage/browser-backend.ts:392-399 | after changes in order each record is as its last change left it, and a protected value that cannot be read is never replaced or removed |
| BrowserModel.PutRowsSucceeds | src/storage/browser-backend.ts:392-399 | changes to records fail exactly over a protected value that cannot be read |
| BrowserModel.OpensOnlyForItself | src/storage/browser-backend.ts:122-127 | a stored value opens exactly when it is public or sealed for this owner and record |
| BrowserModel.PutSecretsGet | src/storage/browser-backend.ts:186-192 | of different references, each mutated one ends with its new value one revision on |
| BrowserModel.PublishedReadsAreCurrent | src/storage/browser-backend.ts:386-404 | whatever was read and whenever: if the commit is published, every read is still current |
| BrowserModel.CommitIsAtomic | src/storage/browser-backend.ts:379-404 | a published commit equals running its whole read, compute and write at that moment |
| BrowserModel.FailedPublicationKeeps | src/storage/browser-backend.ts:181-230 | a publication that does not take place changes nothing but its own receipt, and a replay changes nothing at all |
| BrowserClients.StepIsAtomic | src/storage/browser-backend.ts:379-404 | every step of every client is invisible, or its whole commit at once with the reply that commit gives, or a repetition of a commit with this very receipt that changes nothing and is answered from the earlier reads, or a receipt of its own failure |
| BrowserClients.RunIsSerial | src/storage/browser-backend.ts:379-404 | any interleaving of reads and publications leaves the database as its successful commits leave it when each runs alone, in publication order; repetitions change nothing |
| BrowserClients.EarlyReplyIsCurrent | src/storage/browser-backend.ts:380-385 | a commit that ends before it reads changes nothing and is answered as the same commit run at that moment |
| BrowserClients.RepeatedReplyIsCurrent | src/storage/browser-backend.ts:382-403 | a repetition noticed while publishing is answered as the same commit run at that moment exactly when every path holds what the client believes |
| BrowserClients.RepeatedReplyCanBeStale | src/storage/browser-backend.ts:403 | one repetition that is answered without a file which another client has added |
| BrowserClients.RepetitionChangesNothing | src/storage/browser-backend.ts:382-385 | through any run of clients a committed receipt stays, and the commit run again changes nothing and is answered with the current files |
| BrowserClients.ReceiptNamesRequest | src/storage/browser-backend.ts:145-150 | a receipt is of one request only: same workspace, changes, records and secrets |
| BrowserClients.FailureIsFinal | src/storage/browser-backend.ts:181-229 | through any run of clients a failed operation stays failed, and no commit under its identifier changes anything |
| BrowserEffects.CommitWrites | src/storage/browser-backend.ts:389-403 | a commit writes its own three records and no other, is answered with the files it leaves, and lists its workspace, unless that is the global one, behind exactly those listed before |
| BrowserEffects.CommitSucceedsExactly | src/storage/browser-backend.ts:379-404 | a commit that is no repetition is published exactly when its secrets, file revisions and records are as it expects, all it replaces can be read, and its identifier is new; otherwise at most a receipt of its failure is left |
| BrowserEffects.CommitSettlesFiles | src/storage/browser-backend.ts:389-391 | each path ends with the content of the last change to it under that content's revision, or is gone; other paths keep their file |
| BrowserEffects.CommitReplacesWhatWasRead | src/storage/browser-backend.ts:389-391 | no lost update: a change is published only over the very content it was based on |
| BrowserEffects.CommitSettlesRows | src/storage/browser-backend.ts:392-399 | each record reads back for its owner as the last change's value, in the open only when the change says so and otherwise sealed for that owner and record, or is gone; others and all unreadable ones are untouched |
| BrowserEffects.NewSecretReplacesNone | src/storage/browser-backend.ts:153 | a secret that is meant to be new replaces none, also none from before revisions existed |
| BrowserEffects.CommitSettlesSecrets | src/storage/browser-backend.ts:186-228 | a commit gives each of its secrets its new value, one revision on from the one it names, leaves all others, and its receipt answers a repetition |
| BrowserEffects.CommitStaysInScope | src/storage/browser-backend.ts:379-380 | a commit changes secrets of its own workspace's scope only |
| BrowserEffects.CommitKeepsContainerSound | src/storage/browser-backend.ts:128-141 | local records stay a container that can be read: named rows, no two alike |
| BrowserEffects.DeletionIsComplete | src/storage/browser-backend.ts:415-434 | a published deletion leaves no record of the workspace, whatever was created between its reads; exactly the other workspaces stay listed, another active one stays active, and no other record changes |
| BrowserEffects.DeletionSucceedsExactly | src/storage/browser-backend.ts:415-434 | a deletion is published exactly when every record, key and secret revision is as it was found |
| BrowserEffects.DeletionEmptiesSecrets | src/storage/browser-backend.ts:235-245 | it leaves no secret value under the workspace and changes no other secret |
| BrowserEffects.DeletionStaysInScope | src/storage/browser-backend.ts:415-434 | all secrets of the workspace's scopes are emptied and none of any other scope is touched |
| BrowserBackend.BrowserDatabase.PublishAll | src/storage/browser-backend.ts:159-232 | verdict and whole new state of a publication |
| BrowserBackend.BrowserDatabase.Verify | src/storage/browser-backend.ts:194-220 | counting answers down applies the changes exactly when every answer matches, and otherwise leaves at most a receipt |
| BrowserBackend.BrowserDatabase.Commit | src/storage/browser-backend.ts:379-404 | an uninterrupted commit is `BrowserModel.CommitNow` |
| BrowserBackend.EditFiles | src/storage/browser-backend.ts:389-391 | all expected revisions are compared before the first change is made |
| BrowserBackend.EditRows | src/storage/browser-backend.ts:392-399 | the record loop stops at the first unreadable record and otherwise applies every change in order |
| WorkspaceMerge.Merge | src/application/workspace-persistence.ts:535-557 | succeeds exactly when settings and each resource changed on one side only or alike on both, and no working copy loses its definition; the result keeps the changed version of everything with unique ids; each failure has its own condition |
| WorkspaceMerge.MergeResources | src/application/workspace-persistence.ts:544-554 | the same for resources alone, and their order: what I did not change in the order it was, and what I changed behind it |
| WorkspaceMerge.EveryChangeIsKept | src/application/workspace-persistence.ts:544-554 | each changed version, and each unchanged resource, is in the result exactly once |
| WorkspaceMerge.MergeIsSymmetric | src/application/workspace-persistence.ts:536-554 | swapping the sides changes neither success nor, up to order, the result |
| UploadFrames.LengthRoundTrip | src-tauri/src/http/request_body.rs:232-234 | a frame length and its four bytes determine each other |
| UploadFrames.EncodePrefix | src-tauri/src/http/request_body.rs:225-237 | the first frames encode to a prefix of the file |
| UploadFile.RequestFileStore.AppendChunk | src-tauri/src/http/request_body.rs:212-239 | a chunk is accepted exactly in order, nonempty, within chunk and file size, for the owner; the file then is the frames of all chunks |
| UploadFile.RequestFileStore.Finish | src-tauri/src/http/request_body.rs:240-251 | an upload is complete exactly when all announced bytes were written |
| UploadFile.RequestFileStore.Reader | src-tauri/src/http/request_body.rs:272-306 | an upload opens exactly when complete and unexpired, for its owner and the workspace that used it first; on an untouched file the reader is over exactly the staged frames |
| UploadFile.RequestFileStore.Attach | src-tauri/src/http/request_body.rs:252-271 | an attachment is complete at once and bound to its workspace, under the same limits |
| UploadFile.RequestFileStore.Release | src-tauri/src/http/request_body.rs:307-315 | releases exactly a matching upload; harmless when it is gone |
| UploadFile.RequestFileStore.Create | src-tauri/src/http/request_body.rs:131-200 | size and count limits decide, after expired uploads are dropped |
| UploadFile.EncryptedReader.Read | src-tauri/src/http/request_body.rs:331-388 | for every disk content and buffer size, until an error is reported: delivered bytes are a prefix of the staged ones, the end comes only after all of them and only if the file is exactly the staged frames, and an error only if it is not |
| UploadFile.EncryptedReader.Refill | src-tauri/src/http/request_body.rs:345-380 | a frame that opens is the staged one, and the file agrees with the frames up to it |
| UploadFile.StaleBytesAfterDamage | src-tauri/src/http/request_body.rs:331-388 | with a byte behind the last of two frames, a read after the reported damage hands out bytes of the rejected frame from where the frame before ended |
| UploadFile.Drain | src-tauri/src/http/request_body.rs:331-388 | any sequence of buffer sizes reads an untouched file to its clean end |
| UploadPipe.StepKeeps | src-tauri/src/http/upload_stream.rs:18-73 | every step of producer, pipe, result channel and consumer keeps the invariant |
| UploadPipe.UploadSafe | src-tauri/src/http/upload_stream.rs:14-73 | in every interleaving, measured by what the source gave and the polls answered: the body is a prefix of the source, at most a pipe and a chunk behind; an error is answered only if the source failed; before any, an answer like an end means the source ended and every byte arrived in order; a dropped body stops the source after one read |
| UploadPipe.RunRemembers | src-tauri/src/http/upload_stream.rs:14-73 | the state of a run is what its steps gave and its polls answered |
| UploadPipe.ProducerMoves | src-tauri/src/http/upload_stream.rs:18-37 | the producer always has a step to take, unless the pipe is full and the next poll makes room |
| UploadPipe.EndIsReported | src-tauri/src/http/upload_stream.rs:53-72 | once the producer is gone and the pipe is empty, the next poll answers with the end if the source ended, and with an error otherwise |
| UploadPipe.EndAnswerMeans | src-tauri/src/http/upload_stream.rs:46-73 | in every run a poll that answers like an end means that the source ended and everything arrived, exactly when no failure was reported before |
| UploadPipe.FailureThenEnd | src-tauri/src/http/upload_stream.rs:53-72 | one run whose poll after a reported failure answers like an end |
| UploadPipe.PanicIsReported | src-tauri/src/http/upload_stream.rs:53-67 | a producer that panics sends no result and is still reported as a failure |
| Template.MatchEndIsMatch | src/domain/template-expression.ts:2-7 | the scanner finds the end of a reference exactly where the expression matches, and there is at most one |
| Template.GroupNames | src/domain/template-expression.ts:3-5 | however the expression divides white space, the trimmed name is the same |
| Template.ScanIsLeftmost | src/domain/template-expression.ts:2-7 | the tokens are the leftmost matches, none overlapping and none missed in between, and no other list is |
| Template.TokensOrdered | src/domain/template-expression.ts:2-7 | tokens are ordered, disjoint and inside the text |
| Template.TokensMean | src/domain/template-expression.ts:2-7 | every token is a match of the expression under its name without surrounding white space, and wherever the expression matches there is a token |
| Template.TemplateSegments | src/domain/template-expression.ts:9-20 | unmasked segments join to the text, masked ones keep its length, white space and references; variable segments are the references in order |
| Template.SameWhitespace | src-tauri/src/template.rs:2-6 | the native list of white space is that of sections 12.2 and 12.3 of ECMA-262 |
| Template.ChecksAgree | src-tauri/src/template.rs:7-15 | the editor's and the native check for a pure reference agree on every text |
| VariableGraph.SensitiveSteps | src/application/resolve-request-secrets.ts:84-94 | reaching a marked name is being marked or having a child that reaches one |
| VariableGraph.RankedPath | src/application/resolve-request-secrets.ts:87-97 | in the order in which visits end no path repeats a name or leaves the visited ones |
| VariableGraph.LeaveSettles | src/application/resolve-request-secrets.ts:93-96 | a name is settled once all its children are |
| VariableGraph.ContentMeans | src/application/resolve-request-secrets.ts:11-21 | a variable that has a state or a mark reads as the mask where secrets are hidden; otherwise as its edit, what the store found, or what was given; it has no value only when its secret is gone and to be shown |
| VariableGraph.NamesMean | src/application/resolve-request-secrets.ts:91-92 | a variable depends on exactly the names its text mentions |
| SecretVariables.VariableWalk.ResolveVariable | src/application/resolve-request-secrets.ts:86-97 | a visit settles its name and everything below it, or fails with a path that explains the failure |
| SecretVariables.VariableWalk.ResolveAll | src/application/resolve-request-secrets.ts:79-99 | success means nothing reachable lies on a cycle, and every reachable name has the value it has to have, masked where secrets are hidden, the names its text mentions as dependencies, and a mark exactly when it reaches one; circularity is reported only for a repeating path or one of more than 32 names, and a missing secret only when it is to be shown |
| SecretVariables.CollectAll | src/application/resolve-request-secrets.ts:67-71 | the names an expression depends on are exactly those its references reach |
| SecretVariables.ResolveRequest | src/application/resolve-request-secrets.ts:65-74 | when everything resolves, each expression of a request is recorded with exactly the names it refers to and reaches, and as secret exactly those of them that reach a mark, and each of these names has the value it has to have; otherwise a name the request refers to explains the failure |
| RequestCodec.EqualIsPrune | src/application/local-request-codec.ts:31-39 | comparing with defaults is comparing what is left without undefined keys |
| RequestCodec.ExpandInto | src/application/local-request-codec.ts:48-52 | the loop over entries gives the expansion in any order of entries |
| RequestCodec.FieldsComeBack | src/application/local-request-codec.ts:41-52 | expanding what subtraction left gives every field back at every depth |
| RequestCodec.SubtractAgain | src/application/local-request-codec.ts:41-52 | subtracting from the expansion leaves the same again |
| RequestCodec.GeneratedGroups | src/application/local-request-codec.ts:61 | generated boundaries are the prefix in any case and hexadecimal groups of 8, 4, 4, 4 and 12 digits |
| RequestCodec.RoundTrip | src/application/local-request-codec.ts:54-74 | an editor comes back from its compact form, with a new boundary exactly where an unused generated one was dropped, exactly when it has no key of its own where the version is kept |
| RequestCodec.Recompacts | src/application/local-request-codec.ts:54-74 | compacting again gives the same form exactly when no unused boundary was dropped or the new one has the generated shape |
| RequestCodec.CompactIsMinimal | src/application/local-request-codec.ts:41-65 | the compact form holds nothing undefined and nothing the defaults say, at any depth, and no unused generated boundary |
| RequestCodec.RegeneratesExactly | src/application/local-request-codec.ts:58-64 | a boundary is unused exactly when it has the generated shape and nothing else in the body was set |
| RequestCodec.ExpandsOnlyItsFormat | src/application/local-request-codec.ts:67-69 | values of another form come back unchanged, and other versions are refused |
| HistoryModel.ListingMeans | src/storage/browser-history.ts:69-84 | a listing holds exactly the entries of the document whose text contains the search and that lie behind the cursor, newest first and by falling ids within a moment |
| HistoryModel.BelowMeans | src/storage/browser-history.ts:81-82 | ids are ordered by their first difference |
| HistoryModel.CursorContinues | src/storage/browser-history.ts:79-84 | continuing from an entry's cursor lists exactly what follows that entry |
| HistoryModel.PageSize | src/storage/browser-history.ts:72-83 | at most a hundred entries on a page, and on any but the last exactly the number asked for within one and a hundred, fifty by default |
| HistoryModel.PagesListEverything | src/storage/browser-history.ts:69-84 | following cursors lists every matching entry once, in order, for any page sizes, and ends after at most one page an entry |
| History.BrowserHistory.Append | src/storage/browser-history.ts:47-68 | a new id is added and a known one changes nothing; retention drops exactly the unpinned expired entries, and other entries stay as they are |
| History.BrowserHistory.List | src/storage/browser-history.ts:69-84 | a page of what retention leaves, pinned entries included |
| History.BrowserHistory.RemoveItems | src/storage/browser-history.ts:97-104 | exactly the named items and their entries go |
| History.BrowserHistory.Prune | src/storage/browser-history.ts:121-125 | exactly the unpinned items before the cutoff and their entries go |
| History.BrowserHistory.Pin | src/storage/browser-history.ts:109-112 | one item's pin changes, order and all else stay |
| History.BrowserHistory.LatestExecutions | src/storage/browser-history.ts:126-139 | prunes, then loads the entry of each document's newest response; a missing entry is skipped, and one that cannot be read ends the call exactly when its id is not collected |
| History.SortIsStable | src/storage/browser-history.ts:128 | responses of one moment stay in the order of the index |
| History.LatestMeans | src/storage/browser-history.ts:126-139 | at most one execution for each document, each with an entry that can be read and none of the document's responses newer; a document with a response is missing only when its newest response's entry is |

## Left out

- Random identifiers: `CreateStaging`, `Create` and the operation identifiers of new saves take one that was not drawn before.
- Cursor strings: pages take the parsed offset; the text forms and their parse errors are not modelled.
- Media types, character sets, base64 windows and search snippets; the cipher's own algorithm; SQLite's 64-bit range, which the content limit of 128 MiB never reaches.
- Regular-expression and case-insensitive search, formatting and queries over JSON or XML, which live in libraries.
- Timings, progress events and sleeping; expiry is the time passed in, or a set of expired items.
- ContentPreview.ReadPreviewLines: requires the store's window limit to be at least the 192 KiB page, as the program's own limit of 4 MiB is, because every window it reads is that large.
- ContentLines.ReadLines: its full contract requires a window limit of at least four bytes, so that one character fits.
- CapturePipeline.NeverStuck: says that steps are there to be taken, not that the network, the worker or a poll ever takes them.
- SearchModel.ExactExactlyWithoutBorder: speaks of windows of at least twice the pattern, as the program's are; in shorter ones matching starts again within the carried bytes and may report more.
- CapturePipeline.CaptureSafe: a worker that stops before the release runs leaves the row to expiry, so what a failed capture leaves is stated while the worker lives.
- Capture statistics and the loop's local variables are one state of `CapturePipeline`; the loop is a state machine rather than a method, since its awaits interleave with the worker.
- SecretModel.Outcome: a receipt keeps the batch and the serialised identity themselves, where the program keeps one JSON text of both; expected revisions are integers, so a fractional one is not modelled.
- Overlapping reads of `CachedSecureStore`, and the failure states of stores that can be locked; `deletePrefixes`, which is one commit of the kind modelled.
- CommitRecovery.CommitConfirmed: assumes that the status query is truthful and that no request is still on its way when it is asked, and says nothing about an identifier used for two different batches beyond the rejection; the memory store's only error of the rejected kind is an operation conflict.
- BrowserModel.Publish: records are compared as values, where the program compares their JSON text, so it also rejects a record rewritten with its keys in another order; a content's digest stands for the content.
- BrowserClients.RunIsSerial: other writers are arbitrary steps of the database; key management and the history service's own records are among them.
- WorkspaceMerge.Merge: serialisation is a given signature of each resource; restoring the merged workspace afterwards is not modelled.
- UploadFile.RequestFileStore.AppendChunk: a write that fails half way leaves part of a frame, and a chunk encrypted twice under one context; such an upload is not modelled, only one whose failed appends wrote nothing. The bytes of attachments and the sanitising of names are not modelled.
- UploadFile.EncryptedReader.Read: its promises about the staged bytes end at the first error (`UploadFile.StaleBytesAfterDamage`); what a call does after one is stated by `UploadFile.ReadStep`.
- Template.TemplateSegments: characters are Unicode scalar values, where the program masks UTF-16 code units, so a character outside the basic plane counts once here.
- SecretVariables.VariableWalk.ResolveAll: a variable's secret resolves to a given value or to nothing; which error an unavailable secret raises is not modelled.
- RequestCodec.RoundTrip: objects are maps, so the order of keys is not kept, and a key named `__proto__`, which assignment treats specially, is not modelled. Equality is up to keys that are undefined. Documents around an editor are passed through by kind and are not modelled.
- HistoryModel.PagesListEverything: the index is fixed; retention may drop entries between pages. Identifiers are compared by character, and search text is given lower-cased.
- History.BrowserHistory.Append: one operation runs at a time; secrets saved with an entry and the import of older records are not modelled.
- YAML files, workspace projection, importers, operation registries, trace cache, windows and user interface.

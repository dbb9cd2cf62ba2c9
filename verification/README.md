# Verified model of monopass

monopass is a password manager: an agent keeps an encrypted database, and command line clients
talk to it over a Unix socket. This project models the parts of it whose correctness is not
visible in any single function, and proves what those parts are for.

| part | modules |
|---|---|
| Who may use the unlocked agent: the two ancestor walks over the process table, the GUI and session-leader choices, the bytes that are hashed into a scope | `ProcessModel`, `Lineage`, `Walks`, `ScopeHashing`, `ProcStat` |
| The hand-written HTTP client: incremental reading, framing, chunked bodies, connection reuse, and where it departs from RFC 9112 | `HttpSyntax`, `HttpStream`, `HttpClient`, `ChunkedCoding`, `HttpRoundTrip`, `HttpConformance` |
| Unlocking and retrying, also for streamed bodies | `UnlockRetry` |
| Uploads, exports and imports over the blob store | `ItemRequests`, `BlobStore`, `Upload`, `ExportFormat`, `ExportJob`, `ImportJob`, `TransferRoundTrip` |
| The GUI password prompt against its controller | `GuiPrompt`, `GuiRuns` |
| The life of import and export jobs | `Jobs`, `JobRuns` |
| Schema and settings migration | `Migration` |
| Trash names and SQLite GLOB patterns | `Glob`, `Trash` |
| Planning of share, copy and move commands; names of export files | `ItemPaths`, `Planning`, `ExportNames` |
| Application ids from systemd unit names | `UnitNames` |
| Text, bytes, UTF-8 and lists without duplicates | `Text`, `Bytes`, `Utf8`, `Distinct`, `Wrappers` |

How it is built:

- What the program does step by step is a method here, with the program's loops, early exits and
  fields. Its contract ties it to a function or predicate that says what the result means, and
  lemmas about that function carry the main results.
- What runs concurrently (prompt and controller, many jobs) is a state machine over steps, and the
  results are about every run of it.
- What the outside decides is left open: how many bytes a read returns, when a database call or a
  connection fails, what another client does to the trash, what the user does in the prompt, how
  the agent answers. Loops and calls that depend on it are verified for every choice.
- `hide` statements keep definitions away from the solver where a proof does not need them.

What the proofs brought to light:

- The two ancestor walks agree because the platform only vouches for a login parent of the same
  user. Without that promise they part in exactly one case (`Walks.WalksPartIff`).
- Of several Content-Length lines the client takes the last, and it reads a leading plus sign as
  part of a number; section 6.3 of RFC 9112 calls both faulty (`HttpConformance.FramingFollowsStandardIff`).
  It likewise looks at the last Connection line only, and in version 1.0 lets "keep-alive" win over
  "close" (`HttpConformance.ReuseFollowsStandardIff`).
- Chunk extensions that are not UTF-8 make the client refuse a legal body (`ChunkedCoding.DecodeUndoesEncode`).
- A failed import leaves a blob behind exactly if reading an entry failed after its last byte and
  the content was new, because that failure comes too late for the store
  (`ImportJob.StreamFileToDatabase`, `ImportJob.RunImportJob`). This concerns the interface between
  import and its entry readers; the tar reader stops at the declared size, so no archive that the
  agent receives gets there (`ImportJob.CleanArchiveStrandsNothing`).
- An archive can pass every check of import and still be refused when the item is created: for an
  empty field or file name or a malformed one-time password (`ImportJob.RequestAdmitted`).
- A request whose client goes away before the job is spawned leaves its registration behind, and
  perhaps a queued record that nobody works on; the agent then never counts as idle again
  (`Jobs.UnmatchedIffDropped`, `Jobs.IdleIffNoneDropped`).
- A failed upload can still leave a blob behind, because the store finishes with what it was sent
  (`Upload.CreateFile`). This takes a body that goes on or breaks after its announced size; reading
  that ends there strands nothing (`Upload.DelimitedBodyStrandsNothing`).
- A job id drawn twice can take a job that is still running out of the active set
  (`Jobs.InvIffGoodDraws`, `Jobs.BadDrawLosesJob`).
- Copying into a directory gives two sources one destination exactly if they have the same item
  name (`Planning.DestinationsDifferIff`).
- The scheme for making export file names unique relies on the timestamps in them
  (`ExportNames.ArbitraryNamesCollide`).

## Model

| member | source | states |
|---|---|---|
| Lineage.ClimbEndsIff | src/agent/process.rs:394-447 | Exactly when and how a climb ends, in the resolver's own answers: complete at a process without a parent or with an inspected foreign one, cut at a parent that cannot be inspected, a repeated pid or the end of the budget, foreign at another user's process; every process before leads to the next by its probed uid and information or by the one bridge |
| Lineage.MissingParentCuts | src/agent/process.rs:424-446 | A climb that reaches a process whose parent has no probed uid, or the user's uid but no information, is cut there |
| Lineage.ClimbCompletesIff | src/agent/process.rs:394-447 | The recursive form of the same: a climb completes with a chain if and only if the chain ascends step by step to a top, without repetition and within the budget |
| Lineage.AcceptedLineageShape | src/agent/process.rs:394-447 | An accepted chain starts at the peer, has distinct pids and one uid, neighbours are child and parent except for at most one verified login bridge, and length plus bridges is at most 256 |
| Lineage.NeverForeign | src/agent/process.rs:976-983 | With a platform that vouches for the uid of bridged parents no climb ever reaches another user's process |
| Lineage.ClimbExtends | src/agent/process.rs:394-447 | A climb keeps everything it has accepted, so what an early exit saw is what the finished climb has there |
| Walks.ResolveOriginatingProcess | src/agent/process.rs:249-348 | The early-exit loop terminates without underflow of its budget and returns the hash of what a search over the whole climb would choose: nearest GUI process, else nearest session boundary, else (only if complete) the top |
| Walks.ResolveAuthorizationScope | src/agent/process.rs:387-471 | The full walk returns nothing for a cut climb and otherwise the chain's scope hash, originating hash, display and ultimate process |
| Walks.OriginatingProcessFromChain | src/agent/process.rs:473-495 | Searching the reversed chain from its end finds the nearest GUI process of the peer, before or after one catalog refresh, else the nearest session boundary, else the top |
| Walks.NarrowerOriginatingProcessHash | src/agent/process.rs:497-520 | For an abandoned climb the tracked candidate is the nearest session boundary of everything reached, and the choice is the one a search over the climb makes |
| Walks.SearchesMirror | src/agent/process.rs:522-528 | The searches over the ancestor-first chain are the mirror images of those over the peer-first chain |
| Walks.FirstBoundarySnoc | src/agent/process.rs:530-545 | Recording a boundary step by step keeps the nearest one of all neighbours met so far |
| Walks.EarlyExit | src/agent/process.rs:287-293 | A GUI process met on the way up is the one a search over the finished climb finds, however that climb would end |
| Walks.WalksAgree | src/agent/process.rs:249-495 | Whenever the full walk grants a scope, the early-exit walk returns exactly its originating hash |
| Walks.WalksAgreeAfterRefresh | src/agent/process.rs:249-495 | So it does on the catalog as the full walk's own refresh leaves it |
| Walks.WalksPartIff | src/agent/process.rs:249-495 | Without the uid promise the early-exit walk returns another result exactly if a bridge led into another user with no GUI process and no session boundary met |
| Walks.WalksPartAtForeignBridge | src/agent/process.rs:249-495 | For any two processes of different users without a session boundary between them, a platform that bridges from one to the other makes the walks part |
| Walks.GrantedIffCompleteLineage | src/agent/process.rs:387-471 | A scope is granted if and only if the peer has a complete lineage |
| Walks.GrantedIffTrail | src/agent/process.rs:387-471 | A scope is granted if and only if the resolver's answers make up a complete trail from the peer |
| Walks.GrantedMeans | src/agent/process.rs:387-471 | A granted scope is that of the trail, with the process where it originates and the peer as the ultimate process |
| Walks.OriginatesIs | src/agent/process.rs:473-495 | Position by position: the first GUI process from the peer, at once or after a refresh, else the first process whose parent has another known session, else the top |
| Walks.AbandonedMeans | src/agent/process.rs:497-520 | Of an abandoned climb: the first GUI process of what was accepted, else the first boundary of what was reached, else nobody |
| Walks.ScopeMeans | src/agent/process.rs:449-471 | The hashed scope is anchored at the top and lists executables, or instances without one, from the top to the peer |
| Walks.DisplayMeans | src/agent/process.rs:596-647 | The displayed process and application, position by position, with what a refresh adds |
| Walks.EqualHashMeansEqualScope | src/agent/process.rs:739-773 | Equal hash inputs mean equal uid, anchor instance and identities all along the chain |
| Walks.ResolveGuiApplication | src/agent/process.rs:616-646 | One pass yields the nearest exact GUI match, else the nearest context match, and only the former may be marked as the primary process |
| Walks.ProcessDisplayFromChain | src/agent/process.rs:596-647 | The display is that of the nearest presentable process, with the application found before or after one refresh |
| ScopeHashing.PreimageInjective | src/agent/process.rs:21-26 | The bytes fed to the hash determine kind, uid and everything in the scope: three kinds, arbitrary chains, optional generations |
| ScopeHashing.IdentityPrefixFree | src/agent/process.rs:750-773 | Tagged identities form a prefix-free code, so a chain of them reads back one way only |
| ScopeHashing.PreimageLayout | src/agent/process.rs:21-26 | Each kind of scope starts with its own text and goes on with its own fields |
| ScopeHashing.ScopeLayout | src/agent/process.rs:739-745 | Reading the bytes back gives uid, anchor, chain length and identities at their places |
| ScopeHashing.ExecutableLayout | src/agent/process.rs:750-766 | Reading the bytes back gives device, inode and the optional generation, and then the fixed fields |
| ScopeHashing.InstanceLayout | src/agent/process.rs:783-787 | Reading the bytes back gives pid and start times |
| ScopeHashing.HashAuthorizationScope | src/agent/process.rs:739-773 | The field-by-field updates of the hasher add up to exactly the scope's bytes |
| ScopeHashing.HashOriginatingProcess | src/agent/process.rs:775-787 | The same for an originating process |
| ScopeHashing.InsecureAll | src/agent/process.rs:21-26 | The same for the scope of everything a user runs |
| ProcStat.ParseRecovers | src/agent/process.rs:889-907 | Parsing recovers parent, session and start time for every command name, with spaces and closing parentheses |
| ProcStat.SeparatorMeans | src/agent/process.rs:889-907 | One single-byte character separates the command name from the fields; nothing is read after any other |
| HttpClient.ReadResponse | src/commands/client.rs:759-778 | Under any fragmentation the result is that of a pure parse of the bytes, and the stream is left at the start of what follows; only bytes beyond the message may turn it into an error |
| HttpClient.ParseResponse | src/commands/client.rs:780-865 | The same from the end of the headers on, for any split between what came with the headers and the socket |
| HttpClient.ReadBody | src/commands/client.rs:823-856 | Every framing reads the body that the framing means |
| HttpClient.ReadContentLength | src/commands/client.rs:867-884 | Exactly the announced bytes are taken, across any split; surplus is refused, shortage fails |
| HttpClient.HeaderEndStable | src/commands/client.rs:759-778 | Bytes that arrive later never move the end of the headers |
| HttpStream.DecodeChunked | src/commands/client.rs:886-918 | The outcome is that of the encoding read as a whole, for every split between buffer and socket and every fragmentation |
| HttpStream.ResponseBodyReader.ReadLine | src/commands/client.rs:939-953 | Reads up to the next CR LF across buffer and socket; a lone CR is an error |
| HttpStream.ResponseBodyReader.ReadExactInto | src/commands/client.rs:955-971 | Takes exactly the requested bytes, first from the buffer and then from the socket |
| ChunkedCoding.DecodeUndoesEncode | src/commands/client.rs:886-971 | Decoding undoes the coding of section 7.1 of RFC 9112 for all chunk lists, extensions, trailers and following bytes, consuming exactly the encoding; it refuses exactly those with an extension that is not UTF-8 |
| ChunkedCoding.ChunkSizeOf | src/commands/client.rs:890-901 | The size is read off any spelling (hex case, leading zeros, padding, extension) |
| ChunkedCoding.DecodeStable | src/commands/client.rs:886-971 | What has been decided about a body stays decided, whatever arrives later |
| ChunkedCoding.PartIsShort | src/commands/client.rs:886-971 | No proper beginning of a body passes for the body |
| HttpRoundTrip.SaysFraming | src/commands/client.rs:815-856 | The framing follows from status and fields as sent: no body for 1xx, 204 and 304, else chunks if the last Transfer-Encoding says so, else the last Content-Length, else the end of the connection |
| HttpRoundTrip.ChunkedMessageReadsBack | src/commands/client.rs:780-865 | A response whose fields announce the chunked coding reads back as its status, fields and data, and ends where the next message begins |
| HttpRoundTrip.CountedMessageReadsBack | src/commands/client.rs:780-865 | The same for a body announced by Content-Length |
| HttpRoundTrip.BodilessMessageReadsBack | src/commands/client.rs:822-830 | A response of status 1xx, 204 or 304 ends with its head, whatever its fields say |
| HttpRoundTrip.ClosedMessageReadsBack | src/commands/client.rs:850-855 | A body without length is all up to the end of the connection, which is not reused |
| HttpRoundTrip.CutBodyFails | src/commands/client.rs:867-884 | A body cut short is an error |
| HttpClient.Client.Exchange | src/commands/client.rs:582-603 | One exchange returns what its bytes spell, uses the connection there is, keeps it exactly if reusable, and then at a message boundary; any error drops it |
| HttpClient.Client.ExchangeAll | src/commands/client.rs:582-603 | Over any run of requests every response is the one its own bytes spell, whatever connections were kept or dropped |
| HttpConformance.FramingFollowsStandardIff | src/commands/client.rs:823-856 | The client frames a body as section 6.3 of RFC 9112 does or refuses it, if and only if the last Content-Length is not contradicted by the lengths taken together |
| HttpConformance.TwoLengthsMisread | src/commands/client.rs:803-808 | Of two Content-Length lines the second counts, which is a misreading exactly if they differ |
| HttpConformance.ReuseFollowsStandardIff | src/commands/client.rs:815-821 | Where reuse and section 9.3 part, in both directions: earlier Connection lines, and version 1.0 with "close" or a transfer coding |
| HttpConformance.ReuseWithOneLine | src/commands/client.rs:815-821 | With one Connection line and outside those cases a connection is reused exactly if its end is not the end of the body and section 9.3 has it persist |
| HttpConformance.LaterLineHidesClose | src/commands/client.rs:803-821 | After "close" on one line and any other word on the next, the client keeps a connection that section 9.3 closes |
| HttpConformance.KeepAliveBeatsClose | src/commands/client.rs:815-821 | So it does in version 1.0 after "keep-alive,close" on one line |
| UnlockRetry.ProtocolBounds | src/commands/client.rs:362-471 | Original request at most twice, unlock at most three times, success only on a successful answer to a complete request, and a second request only right after a successful unlock |
| UnlockRetry.UnfinishedBounds | src/commands/client.rs:416-471 | When the source cannot be rewound the request was sent at most once, after at most three unlocks |
| UnlockRetry.PasswordsSent | src/commands/client.rs:362-471 | The first request carries no password; a second one that of the unlock before it if the caller asked for that, and else none |
| UnlockRetry.UnlockedAfterDenial | src/commands/client.rs:986-1000 | Unlocking follows exactly an answer of status 403 with the code for denied access |
| UnlockRetry.FinalResultMeans | src/commands/client.rs:362-414 | A call succeeds exactly with an answer of status 2xx, and else fails with the answer's status and code |
| UnlockRetry.UnlockMeans | src/commands/client.rs:496-537 | An unlock succeeds with status 200 only, and is tried again exactly after a 403 for a denied or failed unlock |
| UnlockRetry.SoundCall | src/commands/client.rs:362-471 | While source and connection work, every sending carries the whole body and the call succeeds exactly if the last message is a sending answered with status 2xx; a source of another length fails at once, with nobody asked for a password |
| UnlockRetry.RequestWithUnlockPrompt | src/commands/client.rs:362-414 | Every run against any agent and user follows the protocol, whose outcome the answers and the typed passwords determine |
| UnlockRetry.RequestReader | src/commands/client.rs:672-703 | A sending that completes carried the source from start to end, and that is the announced length; it is given up only for a source or connection that fails or a source of another length, each with its error |
| UnlockRetry.RequestReaderWithUnlockPrompt | src/commands/client.rs:416-471 | The same protocol for streamed bodies, rewound before each sending, or its beginning if a rewind fails |
| UnlockRetry.UnlockWithPasswordPrompt | src/commands/client.rs:514-537 | Each password is tried as it is typed; exactly a rejection among the first two is followed by another prompt, and the outcome is that of the last |
| UnlockRetry.AttemptsEnd | src/commands/client.rs:514-537 | With a password typed at every prompt, unlocking succeeds exactly if the agent accepted one, with that password, and fails only after three rejections or another error |
| UnlockRetry.FirstUnlockMethod | src/commands/client.rs:473-494 | The first method of a successful answer, and which error any other answer gives |
| UnlockRetry.PhaseByMethod | src/commands/client.rs:377-387 | The answer to the discovery decides the unlock phase: which messages it has, which passwords they carry and whether anybody is prompted |
| UnlockRetry.UnlockAccess | src/commands/client.rs:381-387 | Passwords are prompted for exactly if the first method takes the master password; else one unlock goes without |
| Upload.RecordsSplitBody | src/agent/controller.rs:564-622 | The records of a body are non-empty, all but the last of record size, and concatenate to the body |
| Upload.SplitUnique | src/agent/controller.rs:603-622 | There is only one such split, so records do not depend on frame boundaries |
| Upload.SendUploadBodyBytes | src/agent/controller.rs:603-622 | A chunk of any size keeps sent records and remainder equal to what was received, with every sent record full |
| Upload.SendFrames | src/agent/controller.rs:564-595 | On success exactly the records of the whole body were sent, within the announced size; on a failing frame exactly the full records of the body before it |
| Upload.CreateFile | src/agent/controller.rs:551-601 | Accepted exactly if the body arrives whole with the announced and permitted size and nothing else breaks; the store then has a blob of the body, and is otherwise unchanged: grown by just that blob, or not at all if it had one. A failed upload leaves a blob, that of the body before the failing frame, exactly if that body has the announced size in full records and is new, and otherwise changes nothing |
| Upload.AllSentIff | src/agent/controller.rs:564-622 | What was sent before a failure is all that was announced if and only if it arrived and its size is a multiple of the record size |
| Upload.FullRecordStrands | src/agent/controller.rs:569-586 | One full new record announced as such, followed by a failure or by more data, is such a body |
| BlobStore.Store.CreateFileFromChunks | src/agent/state.rs:3516-3626 | Stores under the hash of the concatenated chunks, reuses a blob of equal content, rejects wrong size or hash without a trace, and fails otherwise only with the store itself |
| BlobStore.Sha256HexIff | src/agent/import.rs:462-474 | The texts that pass for a SHA-256 are exactly the lower-case renderings of 32 bytes |
| BlobStore.Store.DeleteUnattachedFile | src/agent/state.rs:3628-3670 | Deletes the blob unless an item uses it |
| ItemRequests.MergeRequest | src/agent/state.rs:4920-4931 | The checks in sequence admit exactly requests with non-empty distinct field names, non-empty distinct file names apart from them, distinct ids and well-formed one-time passwords, and merge what is stored |
| ItemRequests.ValidateFileInputs | src/agent/state.rs:5195-5218 | The loop accepts exactly non-empty distinct names with distinct ids |
| ItemRequests.FieldsByNameMeans | src/agent/state.rs:4920-4931 | With distinct names every field is stored under its name, one-time passwords concealed, and nothing else is |
| ItemRequests.FilesByNameMeans | src/agent/state.rs:5195-5218 | The same for files |
| BlobStore.Store.CreateItem | src/agent/state.rs:3690-3717 | A store that works refuses, with the error that comes first, an illegal item name, a missing or system directory, a name in use, a request that is not admitted and a missing file, and creates every other item; any failure changes nothing |
| ImportJob.ValidateTarTerminatorAndFinish | src/agent/import.rs:424-452 | Accepts exactly 512 zero bytes, under any fragmentation |
| ImportJob.ValidateManifest | src/agent/import.rs:322-359 | Accepts exactly manifests of the format and version with distinct names, distinct valid hashes and legal sizes |
| ExportFormat.ValidManifestIff | src/agent/import.rs:322-359 | Valid are exactly manifests of format and version with distinct names across fields and files, distinct rendered digests and sizes of at most 2^32 - 1 records |
| ExportFormat.ManifestEntryIff | src/agent/import.rs:188-224 | The first entry is a regular manifest.json of at most 16 MiB that reads to its end and decodes |
| ExportFormat.FileListingIff | src/agent/import.rs:361-381 | A file's entry is regular, under its hash, of its size and content |
| ImportJob.StreamFileToDatabase | src/agent/import.rs:383-422 | Stores exactly the entry's bytes if size and hash are right, else changes nothing, except that an entry which fails after its last byte leaves a blob, exactly if its hash is new |
| ImportJob.ReadManifest | src/agent/import.rs:188-224 | Accepts exactly a manifest entry of a valid manifest; the error tells whether decryption failed there |
| ImportJob.ParseExport | src/agent/import.rs:168-320 | Succeeds only on an archive that is acceptable as a whole, with the manifest's fields and files in order, and on a store that works takes every such archive; reports precisely the blobs that were not there before, unless the archive strands one; on such a store the error is one of decryption exactly if decryption failed after a part that is in order |
| ImportJob.RequestAdmitted | src/agent/import.rs:230-286 | Of the request built from a valid manifest the store can only refuse an empty name or a malformed one-time password |
| ImportJob.CleanupNewFiles | src/agent/import.rs:162-166 | Removes the newly stored blobs and touches no other |
| ImportJob.RunImportJob | src/agent/import.rs:120-160 | All or nothing for any manifest and any failing step: the item with exactly the manifest's fields and files and no other new blobs, or the initial items and blobs. A store that works creates the item exactly for an acceptable archive, an admitted manifest and a legal free name in a writable directory, and fails to restore the blobs exactly if the archive strands one; it blames decryption exactly if that failed after a part that is in order, the request exactly if the archive is in order, and else the archive |
| ImportJob.AcceptedNotBelow | src/agent/import.rs:168-320 | An acceptable archive is none whose decryption fails, so the error is never ambiguous |
| ExportJob.SnapshotFileReader.Read | src/agent/export.rs:321-350 | Hands out the chunks as one stream, in pieces of any size, and digests what it hands out |
| ExportJob.AppendSnapshotFile | src/agent/export.rs:234-256 | Writes the file's entry if the delivered bytes have the recorded size and hash, else fails |
| ExportJob.StreamExport | src/agent/export.rs:173-232 | Writes manifest, files in order and terminator, exactly for exportable snapshots |
| ExportJob.ArchiveLayout | src/agent/export.rs:173-256 | The archive entry by entry: paths, kinds, data, manifest contents and the final zero block |
| ExportJob.ExportIsAccepted | src/agent/export.rs:173-256 | What export writes is acceptable to import, as its own manifest, if and only if names and hashes are distinct and valid |
| TransferRoundTrip.HeldIsReproduced | src/agent/import.rs:230-286 | An item that holds what the manifest says has the snapshot's fields and the streamed bytes of its files, unless hashes collide |
| TransferRoundTrip.ExportThenImport | src/agent/import.rs:120-320 | Importing an export into a store that works reproduces fields, file names and file bytes if and only if the item's name is legal and free, the directory writable and the names and one-time passwords admitted; otherwise everything is as before |
| GuiPrompt.ProtocolSafety | src/agent/controller.rs:257-335 | In every interleaving: at most three passwords tried, at most one submission awaits feedback, every checked one answered exactly once, nothing follows Denied or Dismissed |
| GuiPrompt.WaitingPromptIsServed | src/agent/gui_auth.rs:591-620 | While a submission is unanswered the controller is checking it or can take it |
| GuiPrompt.StepKeepsInv | src/agent/gui_auth.rs:575-620 | Every step of prompt and controller keeps history, queue, cells and answers in step |
| GuiRuns.OutboxIsHistory | src/agent/gui_auth.rs:762-791 | What the prompt sends in a run: each accepted password as typed, in order, and the outcome it was closed with |
| GuiRuns.CheckedAsTyped | src/agent/controller.rs:283-310 | The k-th password the controller checks is that of the k-th accepted submission |
| GuiRuns.PollTells | src/agent/gui_auth.rs:793-811 | The user is told nothing before the verdict, to try again after one of the first two was wrong, and otherwise that the prompt is done |
| GuiRuns.EndIsReply | src/agent/controller.rs:283-333 | The reply follows from the run: unlocked by a right password, migration needed, denied by the third wrong one, by a dismissal or a vanished prompt, locked out by a denial, cancelled by the client |
| GuiRuns.UnlockGuiWithPrompt | src/agent/controller.rs:257-335 | The controller's loop returns the reply with which the run of all that happened ends the request, within the three attempts, whatever a prompt of any toolkit does meanwhile and wherever the client hangs up |
| GuiPrompt.QtPromptState.PollPrompt | src/agent/gui_auth.rs:721-749 | Opens a prompt for the request that has waited longest, under the next id, which skips 0 when it wraps; a prompt still open under that id vanishes |
| GuiPrompt.QtPromptState.Allow | src/agent/gui_auth.rs:762-779 | Submits to the prompt of that id only, unless a submission already waits |
| GuiPrompt.QtPromptState.CloseWith | src/agent/gui_auth.rs:781-791 | Closing removes the prompt and sends one last outcome to its own request |
| GuiPrompt.QtPromptState.Feedback | src/agent/gui_auth.rs:793-811 | The code tells whether to wait, to try again or to close, and the prompt goes exactly with the last |
| GuiPrompt.QtPromptState.DenyAll | src/agent/gui_auth.rs:813-820 | Dismisses every open prompt and every request not shown yet, once, and leaves the others alone; no prompt is open afterwards |
| Jobs.StatusesMoveWhileActive | src/agent/controller.rs:635-819 | In every interleaving with distinct ids a status changes only while its job is active, only along queued, running, terminal or queued, failed; a job is active exactly from registration to unregistration |
| Jobs.LegalMoveMeans | src/agent/controller.rs:718-819 | The five moves of a status, one by one |
| Jobs.TerminalStays | src/agent/controller.rs:718-819 | A terminal status never changes again |
| Jobs.RegistrationsMatch | src/agent/controller.rs:635-819 | Every job is registered once and unregistered at most once, exactly when its code runs to the last line, whatever the ids |
| Jobs.UnmatchedIffDropped | src/agent/controller.rs:635-705 | Of the jobs that have come to their end, the registration stays unmatched if and only if the client hung up before the job was spawned or unregistered |
| Jobs.DroppedStaysActive | src/agent/controller.rs:635-705 | The id of a dropped job is active in every later state |
| Jobs.IdleIffNoneDropped | src/agent/state.rs:825-843 | When all jobs have come to their end, no job is active if and only if none was dropped |
| Jobs.OrphanStaysQueued | src/agent/controller.rs:643-655 | A record written after its request was dropped says "queued" in every later state |
| Jobs.HangUpLeavesRegistration | src/agent/controller.rs:643-655 | The run of three steps that leaves a registration and a queued record behind |
| Jobs.Agent.Accept | src/agent/controller.rs:635-705 | While other jobs take any steps, accepting ends with the job queued and active; refused, finished and unregistered exactly for a failed write or an id with a record; or, if the client hangs up at one of the two waits, dropped and active |
| Jobs.Agent.RunTask | src/agent/controller.rs:718-819 | While other jobs take any steps and any write may fail, the spawned code ends unregistered and the record shows the last status it wrote: the outcome of the work if that was reported, else failure if that could be written, else what stood there |
| JobRuns.TraceFitsPhase | src/agent/controller.rs:635-819 | In every interleaving the steps of each job are one of the few ways its code can go |
| JobRuns.RecordShowsWritten | src/agent/controller.rs:718-819 | A job's record shows what the job wrote last, whatever the ids are |
| JobRuns.ReportShowsWork | src/agent/controller.rs:736-743 | A report that goes through shows success exactly if the work succeeded |
| JobRuns.SucceededWorked | src/agent/controller.rs:736-743 | Success is written only after work that succeeded |
| Jobs.JobsComeToTheirEnd | src/agent/controller.rs:718-819 | No job takes more than six steps in any run |
| Jobs.InvIffGoodDraws | src/agent/controller.rs:635-705 | In a run every state has each unfinished job active under an id of its own with a fitting status if and only if no id of an unfinished job was drawn again |
| Migration.RunPreserves | src/db.rs:338-510 | Over any sequence of opens and migrations the version never decreases and every field lookup, effective setting value and directory mask bit is preserved |
| Migration.SettledMeans | src/db.rs:338-368 | Each setting ends as its new-name value, else legacy value, else default; legacy names go, foreign ones stay; a repeat changes nothing |
| Migration.DefaultsSettled | src/db.rs:338-350 | A database without settings ends with the nine defaults and nothing else |
| Migration.OlderNamesSettled | src/db.rs:120-130 | A database with the seven older names ends with their values under the new ones |
| Migration.DirsMean | src/db.rs:370-390 | Databases from before version 2 get one bit on the trash directory, others none; how the version changes |
| Migration.RenamedMeans | src/db.rs:352-368 | Renaming settings gives each new name its own value or the legacy one, for any list of unrelated names |
| Migration.MigrateTwice | src/db.rs:406-440 | A repeated migration reports that there was nothing to do and changes nothing, and so does opening |
| Migration.Database.MigrateFieldsToRows | src/db.rs:458-510 | The rows hold exactly the fields of all documents; a malformed one rolls everything back |
| Migration.Database.Open | src/db.rs:186-201 | What opening does to tables of any version, and which error it returns |
| Migration.Database.Migrate | src/db.rs:406-440 | What migrating does to tables of any version, and which error it returns |
| Migration.Database.MigrateSettingNames | src/db.rs:352-368 | The loop renames as the specification does |
| Migration.Database.InsertMissingSettingDefaults | src/db.rs:338-350 | The loop fills in defaults as the specification does |
| Glob.EscapedMatchesSameReading | src/commands/dir.rs:101-112 | Under SQLite's GLOB an escaped string matches exactly the strings that are equal to it up to the NUL at which SQLite stops reading |
| Glob.EscapedMatchesItself | src/commands/dir.rs:101-112 | Without NUL it matches exactly itself |
| Glob.EscapedPrefixMatches | src/commands/dir.rs:101-112 | An escaped prefix consumes exactly itself, whatever pattern follows |
| Glob.StarMeans | src/commands/dir.rs:101-112 | In SQLite's GLOB a star stands for any text |
| Glob.RangeMatches | src/commands/item.rs:574-580 | A range in brackets stands for one character within it |
| Glob.OpenBracketMatchesNothing | src/commands/dir.rs:101-112 | A pattern with a bracket that is never closed matches nothing, which is why brackets are escaped |
| Glob.EscapeSqliteGlob | src/commands/dir.rs:101-112 | The loop escapes character by character |
| Trash.NumberedGlobMatches | src/commands/item.rs:574-580 | The numbered pattern matches a name if and only if it is the fallback name for some number from 0 to 999, truncated names included |
| Trash.TrashNumberIff | src/commands/item.rs:582-595 | The parser yields a number if and only if the name is the fallback name with that number |
| Trash.NumberedOrder | src/commands/item.rs:551-607 | Zero-padded names order as their numbers do |
| Trash.FallbackNameMeans | src/commands/item.rs:538-549 | A fallback name keeps the item's name as far as 255 characters allow, and then time and three-digit number in parentheses |
| Trash.NextNumberIsFree | src/commands/item.rs:597-607 | The next number is above all in use; asking fails only if 999 is taken |
| Trash.NextNumberMeans | src/commands/item.rs:597-607 | The first number is 1, each further one the next, and after 999 there is none |
| Trash.MoveItemToNumberedTrashName | src/commands/item.rs:551-572 | Against other clients adding names the loop ends after at most 999 conflicts, moves to a free name above all numbers in use at its start, and gives up only if 999 is taken or a move fails otherwise |
| ItemPaths.ParseIffPath | src/commands/path.rs:28-39 | A text parses as a directory or item if and only if, without its prefix, it is one or two non-empty components |
| ItemPaths.PrefixMeans | src/commands/path.rs:58-63 | One of the two prefixes may stand before a path |
| Distinct.FirstOccurrencesMeans | src/commands/share.rs:154-166 | Pushing only unseen elements leaves each element once, ordered by first occurrence |
| Distinct.FirstOccurrencesUnique | src/commands/share.rs:154-166 | No other list has these properties |
| Planning.ExpandSources | src/commands/share.rs:97-140 | The nested loops collect the first occurrences of the concatenated expansions, or return the first error in source order |
| Planning.PlanShareItems | src/commands/share.rs:97-152 | Share planning returns the first occurrences in order; a single output demands exactly one item |
| Planning.PlanTransfers | src/commands/transfer.rs:109-184 | Copy and move planning pairs the first occurrences with their destinations; renaming is possible for a single listed item only; every error case |
| ExportNames.Destinations | src/commands/share.rs:176-214 | One destination for each item, all different, for any items and any clock readings |
| ExportNames.UniqueFileName | src/commands/share.rs:203-214 | The counts track how often each name was asked for, and the name carries that count |
| ExportNames.NumberedStemInjective | src/commands/share.rs:198-214 | A "-n" suffix is never mistaken for the end of a timestamp |
| ExportNames.DefaultNameMeans | src/commands/share.rs:198-214 | The names with their counts, spelled out |
| ExportNames.JoinPathMeans | src/commands/share.rs:184-195 | A relative name goes into the directory, an absolute one stands for itself |
| ExportNames.ArbitraryNamesCollide | src/commands/share.rs:203-214 | Without timestamps the scheme could produce one name twice |
| ExportNames.PlanShare | src/commands/share.rs:50-95 | A whole share command exports each planned item once, to a file of its own |
| UnitNames.UnescapeIffEscaped | src/agent/desktop.rs:295-323 | Bytes unescape to a name if and only if they are an escaping of it, with any choice of escaped bytes that includes the backslashes and any hex case |
| UnitNames.DecodeSystemdUnitName | src/agent/desktop.rs:295-314 | Decoding is a left inverse of every such escaping for all UTF-8 names and rejects everything else |
| UnitNames.StableIdIff | src/agent/desktop.rs:257-278 | The stable id of a slice or scope, with hyphens in the id allowed |
| UnitNames.ThirdFieldIff | src/agent/desktop.rs:259 | The path of a line is all after its second colon |
| UnitNames.LinesRead | src/agent/desktop.rs:259 | The lines of a text are read back whichever way they end |
| UnitNames.UnitsAreComponents | src/agent/desktop.rs:259-263 | The units are the components of those paths |
| UnitNames.ApplicationIdsFromCgroup | src/agent/desktop.rs:257-293 | The ids found are exactly those with a slice or scope among the units, each once and in order |

## Smaller facts

Short consequences of the definitions, stated because the results above use or illustrate them:

- `Walks.DisplayedProcessOriginates`: an application displayed by an exact match is the originating process.
- `Jobs.UnfinishedJobsCanStep` and `Jobs.BadDrawLosesJob`: a job can take a step exactly if it has not come to its end, whatever the others do; how a bad draw takes a job out of the active set.
- `ImportJob.StrandedHere` and `ImportJob.CleanArchiveStrandsNothing`: the entry at which an archive goes wrong decides alone whether a blob is stranded, and readers that stop at the declared size never strand one.
- `ImportJob.AcceptedManifestUnique`: an archive is acceptable as one manifest at most.
- `Migration.MalformedUndoes`: what `Migration.Database.Migrate` says about version 2 and malformed documents.
- `Planning.DestinationsDifferIff`: destinations differ exactly if item names do.
- `Trash.NumberedNameShape`: numbered names differ in their three digits only.

What single functions mean, spelled out with literal constants:

- Text: `Text.WhitespaceIff`, `Text.TrimMeans`, `Text.UnsignedMeans`, `Text.UnsignedRefuses`, `Text.SignedMeans`, `Bytes.SignedReads`.
- HTTP: `HttpSyntax.ChunkSizeErrors`, `HttpSyntax.StatusLineMeans`, `HttpSyntax.HeadErrors`.
- Scopes: `ScopeHashing.GenerationLayout`, `ScopeHashing.ExecutableTailLayout`, `ScopeHashing.IdentityLayout`,
  `Walks.SomeOrigin`, `Walks.NothingDisplayed`, `ProcStat.TooLittle`, `ProcStat.StartTimeMustFit`.
- Patterns and names: `Glob.PatternMeans`, `Glob.InvertedRangeMatches`, `Glob.BracketInBrackets`, `Glob.EitherOfTwo`,
  `Glob.HyphenLast`, `Glob.OrdinaryIff`, `Trash.OtherNamesRefused`, `ExportNames.OtherNameNumbered`, `UnitNames.SpellMeans`.
- Prompt: `GuiPrompt.AlwaysPossible`, `GuiPrompt.IdlePoll`, `GuiPrompt.NextIdMeans`, `GuiRuns.SubmitAfterEnd`.
- Items and archives: `ItemRequests.ItemNameMeans`, `ItemRequests.NormalizedMeans`, `ItemRequests.FieldFitsMeans`,
  `ExportFormat.ProperEndIff`, `ImportJob.ReadErrorMeans`.

## Left out

- SHA-256: a hash stands for the bytes fed to it; for blobs it is an uninterpreted function, assumed free of collisions only in `TransferRoundTrip`.
- The process table and the catalog of GUI applications are fixed during one call, with at most one refresh; the macOS evidence behind a login bridge and names, icons and paths for display are not modelled.
- Direct unlock callers (src/agent/process.rs:549-583) are single-branch facts.
- JSON, gzip, age and the tar byte format: a manifest codec that reads back what it wrote, and archives as lists of entries with a tail.
- Overflow of 64-bit sizes and counts of names, and running out of memory on a huge announced chunk.
- A read that would block for ever is a `Short` error; pipelined or unsolicited bytes are not promised anything beyond the contract of `HttpClient.ReadResponse`.
- Requests as bytes: the client's request heads, paths and JSON bodies; the check that an unlock address is one of the agent's is a boolean.
- HttpConformance.ReuseFollowsStandardIff: compares versions 1.0 and 1.1 only; the client treats any other version as not persistent.
- The quiet variants of unlocking for shell completions, and which scope an unlock asks for.
- ImportJob.RunImportJob: restoring the initial blobs after a failure assumes that deletions succeed.
- BlobStore.Store.CreateItem: copying or moving an existing item, hidden items apart from occupying their names, spelling of file ids, version numbers and time stamps; which texts are well-formed one-time password addresses is left open, and a request says of every field whether it is concealed, as import does. Directories stay as they are during an import.
- Sending and storing run side by side in the program; the model lets the sender finish or fail before the store looks at the records, and other writers to the store are absent. A store that stops taking records has failed and changed nothing.
- A request may be dropped at any wait when its client goes away; the model takes this from the web server without modelling it, for jobs, the GUI unlock and upload bodies. An upload that is dropped after its last byte is stored unanswered; the file an import was spooled to is not modelled.
- Random ids of blobs are fresh; for job ids the collision is modelled in `Jobs`.
- Trash.NumberedGlobMatches: assumes names without NUL, where SQLite stops reading; `Glob.EscapedMatchesSameReading` covers names with NUL.
- Trash.MoveItemToNumberedTrashName: assumes that no trash item is deleted meanwhile or hidden from listings, and names without NUL.
- ExportNames.Destinations: clock readings print as four-digit years; paths are compared as texts.
- GTK and AppKit widgets: their prompts share the steps of `GuiPrompt`, but not their windows; that a Qt window closes in the end is not claimed, since a failed send leaves the prompt pending.
- The effects of checking a password (caching, denial memory, session lifetimes) and the rest of the agent's state: item listing, pagination, file encryption and garbage collection.
- The tables of the database other than items, versions, fields, settings and directories, and failures of SQLite other than malformed documents.
- Range checks of settings, parsing of fields and file arguments of `item add` and `item edit`, polling of jobs, clipboard, autostart and version handling.

# Verified planners of nest-base

A Dafny model of the stateful and algorithmic planners of nest-base, and proofs of what they
promise. Run `dafny verify dfyconfig.toml` in this directory to check everything.

| file | what it models |
|---|---|
| `EditDistance.dfy`, `Palette.dfy` | the command palette: bounded edit distance, scoring, ranking |
| `PowerSyncReplay.dfy`, `PowerSyncHistory.dfy`, `PowerSyncStore.dfy`, `PowerSyncRefinement.dfy`, `PowerSyncRenaming.dfy`, `PowerSyncUploads.dfy`, `OverlappingUploads.dfy` | offline queue, conflict resolver, upload endpoint and in-memory store; runs of uploads one after another, and any interleaving of their loads and writes |
| `Fingerprint.dfy` | address masks and device fingerprints |
| `DeviceHandling.dfy` | the sign-in decision and the runs of the runner that acts on it |
| `NewDeviceMail.dfy`, `OverlappingMail.dfy` | the new-device mail and its throttle, for sends one after another and for any interleaving |
| `EnvFile.dfy` | in-place `.env` updates |
| `LineSplitter.dfy` | the line splitter on a child process's output |
| `BlindIndex.dfy` | e-mail hash stamping and lookup |
| `RingBuffers.dfy`, `OverlappingPolls.dfy` | log and trace buffers, and the pages that poll them, one poll after another or overlapping |
| `HtmlEscape.dfy` | HTML escaping |
| `Erd.dfy` | relation inference and the Mermaid diagram |
| `Lists.dfy`, `Sorting.dfy`, `Text.dfy` | runs of a step function, stable sorting, JavaScript string operations |

Lower-casing, locale comparison, hashes and clock readings are parameters. Operations the
source performs step by step are methods; each is proved against a function, and the lemmas
state what that function means.

## Where the code does not do what its documentation says

The code is modelled as it is. Each of these has a lemma that says exactly when the promise
holds.

- **Upload conflicts.** The endpoint passes no protected fields, so its conflict answer is
  never given (`UnguardedReplayRejectsNothing`, and the contract of `Crud`). A patch that loses
  against a newer row is not reported either, although the resolver's comment says it can be
  (`ConflictExactlyWhenGuardedFieldTouched`).
- **Stale patches.** The resolver is meant to discard a patch whose row is newer than the
  client's time stamp. The replay hands it the server's own clock as that time stamp
  (src/core/auth/powersync-demo-client.ts:96), so while the clock runs forward a patch is
  discarded exactly when it is the first of its batch on a row that came in with a stamp ahead
  of the clock (`DiscardedExactlyWhen`). Uploads leave no such rows: from rows that are not
  ahead, no run of uploads one after another ever discards anything
  (`NoUploadDiscardsAnything`), and the last write wins for every field
  (`DurableFieldsAreLastWrites`). After a discard the row is stamped
  anew, and the same patch loses again exactly when the clock has gone back
  (`StalePayloadLosesAgainExactlyWhen`).
- **Payloads with an `id`.** A payload key named `id` moves the row to another address
  (`RenamingUploadMovesTheRow`). Rows stay in place on every store and at every time exactly
  when no payload leaves a row renamed (`RowsStayInPlaceExactlyWhen`). For payloads without an
  `updatedAt` that is also exactly when the upload is direct application
  (`PipelineIsDirectExactlyWhen`); with one, two rows can swap places unnoticed
  (`SwappingUploadIsDirect`).
- **Types with a colon.** Two operations can share a key, and the second then changes the row
  of the first (`CollidingUploadIsNotDirect`). Over a set of types every upload is direct
  application exactly when no type, with its colon, begins another
  (`UploadsAreDirectExactlyWhenSeparate`).
- **Overlapping uploads.** Nothing keeps two uploads from loading a row before either writes
  it, and the second write then takes back the fields of the first (`OverlapLosesAnUpdate`).
  The store is direct application in the order of the writes, whatever the payloads, exactly
  when no upload writes an address of another between that one's load and write
  (`WriteOrderIsDirectExactlyWhenDisjoint`).
- **Refused flushes.** The endpoint refuses more than 1000 operations at once; the client has
  no limit and empties its queue all the same. All operations that were flushed arrive exactly
  when no flush is too large or malformed (`QueuedOperationsReachTheStore`).
- **Device cap.** A known device is never weighed against the cap, eviction takes a session,
  not a device, and a failed revocation is only logged (`SignInRespectsCapExactlyWhen`, `EvictionAddsADeviceExactlyWhen`).
- **Mail throttle.** The limit of one mail per user and window fails when sends overlap: two
  calls that check in one instant, before either finishes, both deliver
  (`OverlappingCallsBothDeliver`). Mails are a window apart at every timing exactly when no two
  calls for one user that build and are accepted overlap
  (`MailsAreSpacedExactlyWhenSequential`).
- **Address masks.** Malformed IPv6 texts are to be masked as invalid. A text is expanded
  exactly when its characters and its number of groups fit (`ExpandsExactlyWhen`), whatever the
  groups are: `12345::1` is expanded although it is no address (`FiveDigitGroupIsAccepted`).
  What an expanded text needs to be an address is exact too (`DenotesExactlyWhen`).
- **`.env` values.** A value with an unquoted `#` or an open quote is not read back and does
  not settle under repetition; all other values are and do (`ValueIsReadExactlyWhenClean`,
  `UpdatesSettleExactlyWhenClean`). Other lines are kept exactly when none but the last one ends
  in a carriage return of its own (`UpdateReadsBack`).
- **Blind index.** An update to a blank address, or through a nested `set`, leaves the old
  hash behind (`BlankUpdateLeavesStaleHash`, `NestedSetLeavesStaleHash`). Which writes keep
  every table in step is exact (`WriteKeepsStepExactlyWhen`).
- **Log buffer.** Asking for the latest 0 records returns all of them, and a negative number
  cuts off that many of the oldest (`RecentIsTailExactlyWhen`).
- **Polling pages.** The log page starts a poll every two seconds whether or not the one before
  has been answered. Two ticks in flight ask with one cursor, and a record is displayed twice
  (`OverlappingTicksRepeat`). Each record is displayed at most once, wherever records are
  pushed and cleared, exactly when no two answered polls overlap
  (`LogsEachOnceExactlyWhenSequential`). The server ignores the cursor of a trace poll and
  answers with all it holds (`TraceAnswerIsNewerExactlyWhen`). The trace page filters what
  arrives and never repeats anything (`TracesEachOnce`), but it drops records when answers
  overtake each other: it loses nothing exactly when they arrive in the order they were served
  (`TracesLoseNothingExactlyWhenInOrder`).
- **Palette.** The fuzzy tier counts an adjacent swap as one edit, where the file's header
  speaks of Levenshtein distance: `lgos` finds `logs` (`LgosMatchesLogs`). The tier is the
  described one exactly unless the query is not part of the text and only a swap brings it to
  a word (`TierIsDocumentedExactlyWhen`). The length guard is meant to keep very short queries from
  matching widely, but it never rejects anything the distance accepts
  (`LengthGuardIsRedundant`), and a one-letter query matches, besides the texts with that
  letter, exactly the empty text and the texts with white space at an end or with a one-letter
  word (`OneLetterQueryMatchesTexts`).

## Model

| member | source | states |
|---|---|---|
| Alignment.EditDistance | src/core/dx/palette-search-planner.ts:58-91 | the table with both early exits returns the distance when it is at most 2, and a value above 2 otherwise, for all texts |
| Alignment.FillRow | src/core/dx/palette-search-planner.ts:72-86 | one row of the table holds the distances of all prefixes, and the tracked minimum is the row's minimum |
| Alignment.DistanceIsLeastScriptCost | src/core/dx/palette-search-planner.ts:50-57 | the distance is the least number of insertions, deletions, replacements and adjacent swaps in any alignment of the two texts |
| Alignment.DistanceIsSymmetric | src/core/dx/palette-search-planner.ts:50-57 | the distance does not depend on the order of the two texts |
| Alignment.DistanceZeroIsEquality | src/core/dx/palette-search-planner.ts:60 | distance 0 is equality |
| Alignment.DistanceOneIsOneEdit | src/core/dx/palette-search-planner.ts:113 | distance 1 means different texts that one single edit turns into each other, both directions |
| Alignment.DistanceOneIsLevenshteinOneOrSwap | src/core/dx/palette-search-planner.ts:50-57 | distance 1 is Levenshtein distance 1 or one swap of two different neighbours, never both; a swap is Levenshtein distance 2 |
| Alignment.LevenshteinWithinTwice | src/core/dx/palette-search-planner.ts:50-57 | the distance is at most the Levenshtein distance, which is at most twice the distance |
| Alignment.DistanceAtLeastLengthGap | src/core/dx/palette-search-planner.ts:65 | the length-gap exit never cuts off a small distance |
| Alignment.RowBoundsNextRow | src/core/dx/palette-search-planner.ts:82-84 | no entry lies below the minimum of the row before it, although a transposition reads two rows back |
| Alignment.RowMinimaNonDecreasing | src/core/dx/palette-search-planner.ts:87-88 | row minima never decrease, so the row-minimum exit never cuts off a small distance |
| Alignment.LengthGuardIsRedundant | src/core/dx/palette-search-planner.ts:113 | the guard on word lengths rejects no word at distance 1 |
| Palette.TierIsBestTier | src/core/dx/palette-search-planner.ts:43-48 | the chosen tier is one the candidate qualifies for, and none it qualifies for scores higher |
| Palette.TierIs | src/core/dx/palette-search-planner.ts:97-119 | an equal text scores 1000, one that begins with the query 100, one that contains it 10, one with a word at distance one 1; no other text matches |
| Palette.TierIsDocumentedExactlyWhen | src/core/dx/palette-search-planner.ts:10-14 | the tier is the one described by Levenshtein distance unless only a swap brings the query to a word, and then it is fuzzy instead of no match |
| Palette.SwappedLettersMatch | src/core/dx/palette-search-planner.ts:108-117 | a one-word text with two neighbouring letters swapped matches fuzzily, against the description |
| Palette.LgosMatchesLogs | src/core/dx/palette-search-planner.ts:108-117 | the query lgos matches the text logs |
| Palette.ScoreCandidate | src/core/dx/palette-search-planner.ts:97-119 | returns the best tier of a candidate: equal, prefix, contained, or a word one edit away, with the score of that tier |
| Palette.IsNearSomeWord | src/core/dx/palette-search-planner.ts:111-116 | the word loop with guard and bounded distance finds exactly the words one edit away |
| Palette.OneLetterQueryMatches | src/core/dx/palette-search-planner.ts:108-113 | which words a one-letter query matches fuzzily |
| Palette.OneLetterQueryMatchesTexts | src/core/dx/palette-search-planner.ts:103-117 | which texts a one-letter query matches in any tier, both directions |
| Palette.BestMatchIsReached | src/core/dx/palette-search-planner.ts:121-138 | a page's match is that of its title or of an alias |
| Palette.BestMatchIsHighest | src/core/dx/palette-search-planner.ts:121-138 | no title or alias of the page qualifies for a tier of a higher score |
| Palette.ScorePage | src/core/dx/palette-search-planner.ts:125-138 | the loop over title and aliases returns that match |
| Palette.SearchPalettePages | src/core/dx/palette-search-planner.ts:148-185 | on both paths the results are as many as the cap keeps (a negative cap drops from the end), the higher score first and among equal scores the smaller title; no result of a lower tier stands before one of a higher tier |
| Palette.MatchingIsExactlyMatchingPages | src/core/dx/palette-search-planner.ts:168-180 | a result is collected exactly when some page matches, with that page's data and best match |
| Palette.CandidatesInPageOrder | src/core/dx/palette-search-planner.ts:151-180 | the candidates are in page order, one for each page that matches, or for every page when the query is white space only, with that page's own data |
| Palette.EverythingShowsEveryPage | src/core/dx/palette-search-planner.ts:151-165 | a blank query presents every page once, with its own data, at the neutral score |
| Palette.SearchReturnsTheBest | src/core/dx/palette-search-planner.ts:182-184 | with some omitted candidates the results make up all candidates; their number, their order by score and then title, ties in page order, and no omitted candidate ranks before a returned one |
| Sorting.StableSortSorts | src/core/dx/palette-search-planner.ts:183 | the sort is an ordered reordering that keeps ties in input order |
| Sorting.OrderedArrangementIsUnique | src/core/dx/palette-search-planner.ts:183 | those three facts determine the sorted list |
| Sorting.SortMapped | src/core/dx/palette-search-planner.ts:153-165 | sorting pages and converting them is converting and sorting results |
| Text.WordsKeepInk | src/core/dx/palette-search-planner.ts:111 | splitting at white space drops the white space and nothing else |
| Text.EmptyWordExactlyWhen | src/core/dx/palette-search-planner.ts:111 | splitting yields an empty word exactly for the empty text and for white space at an end |
| Text.WordsAndGaps | src/core/dx/palette-search-planner.ts:111 | a text is its words with white space between any two; no word holds white space and no word in the middle is empty |
| Text.WhiteSpaceSeparates | src/core/dx/palette-search-planner.ts:111 | blanks, tabs, line breaks and the other white space named there separate words, and no printable ASCII character does |
| Text.TrimCutsSpaceOnly | src/core/devices/fingerprint.ts:63 | trimming cuts white space off both ends, all of it and nothing else |
| PowerSyncReplay.GuardedFieldsSurvive | src/core/repository/powersync-conflict.ts:44-69 | a protected field, id and time stamp included, is never overwritten, whatever the patch and the clock |
| PowerSyncReplay.StalePayloadLosesAgainExactlyWhen | src/core/auth/powersync-demo-client.ts:94-103 | a losing patch changes nothing but the time stamp, and loses again exactly when the clock has gone back behind that stamp |
| PowerSyncReplay.ApplyCrudBatch | src/core/auth/powersync-demo-client.ts:69-107 | the loop leaves the replayed rows in the map, returns the rejections in order, each with the set of its fields, and answers 409 exactly when there are any |
| PowerSyncReplay.RejectionsAreExactly | src/core/auth/powersync-demo-client.ts:94-102 | the rejections of a batch name exactly the operations that touch a protected field of a present row that is not newer, each with the fields it touches |
| PowerSyncReplay.ConflictExactlyWhenGuardedFieldTouched | src/core/auth/powersync-demo-client.ts:100-106 | some rejection exists exactly when there is such an operation |
| PowerSyncReplay.ReplayConcatenates | src/core/auth/powersync-demo-client.ts:77-106 | replaying two batches is replaying their concatenation, rows and rejections |
| PowerSyncReplay.ReplayIsPerRow | src/core/auth/powersync-demo-client.ts:77-104 | the outcome for a row depends only on the operations with its key |
| PowerSyncReplay.CutsDoNotShow | src/core/auth/powersync-demo-client.ts:44-48 | however a list of operations is cut into batches, the rows are the same |
| PowerSyncReplay.DemoClient.Queue | src/core/auth/powersync-demo-client.ts:38-40 | appends the operation to the buffer |
| PowerSyncReplay.DemoClient.Flush | src/core/auth/powersync-demo-client.ts:44-48 | returns the whole buffer and empties it |
| PowerSyncReplay.FlushedAndPendingAreQueued | src/core/auth/powersync-demo-client.ts:35-50 | over any interleaving, the flushed batches followed by the buffer are the queued operations in order |
| PowerSyncHistory.DiscardedExactlyWhen | src/core/auth/powersync-demo-client.ts:94-103 | while the clock runs forward an operation is discarded exactly when it is the first of the batch on a row whose stamp is ahead of the clock |
| PowerSyncHistory.NothingIsDiscarded | src/core/auth/powersync-demo-client.ts:96 | from rows that are not ahead of the clock no operation is discarded, and the rows stay behind the clock |
| PowerSyncHistory.RowIsPresentExactlyWhen | src/core/auth/powersync-demo-client.ts:77-104 | a row is there afterwards exactly when the last operation on it was no deletion, or there was none and it was there before |
| PowerSyncHistory.FieldsAreLastWrites | src/core/auth/powersync-demo-client.ts:85-103 | an unprotected field holds what the batch wrote last since the last deletion of the row, untouched what it held before |
| PowerSyncHistory.IdIsLastWrite | src/core/auth/powersync-demo-client.ts:87-91 | so does the id; a row that appears gets the id of its operation |
| PowerSyncHistory.LastTouchStamps | src/core/auth/powersync-demo-client.ts:87-103 | the stamp of a row is that of the last operation on it |
| PowerSyncStore.InMemoryPowerSyncStore.LoadByTypes | src/core/auth/powersync-store.ts:62-70 | lists exactly the tenant's rows of the given types, each once |
| PowerSyncStore.InMemoryPowerSyncStore.ApplyMutations | src/core/auth/powersync-store.ts:72-83 | all upserts, then all deletes, in order |
| PowerSyncStore.UnguardedReplayRejectsNothing | src/core/auth/powersync.controller.ts:101 | a replay without protected fields rejects nothing |
| PowerSyncStore.Crud | src/core/auth/powersync.controller.ts:64-126 | with tenants told apart, a call without a tenant is unauthorized and leaves the store alone and any other is an upload for that tenant; otherwise it is an upload for the all-zero tenant, whoever calls; a batch is refused exactly when it has more than 1000 operations or one without a type or an id |
| PowerSyncRefinement.PipelineIsDirect | src/core/auth/powersync.controller.ts:87-117 | load, replay on the map, derive and write leaves the durable rows as if each operation had been applied to its row directly and in order |
| PowerSyncRefinement.HydrationAgrees | src/core/auth/powersync.controller.ts:89-98 | loading only the batch's types gives the map the durable row of every operation's address |
| PowerSyncRefinement.RunsAgree | src/core/auth/powersync.controller.ts:100-101 | replay on the map and direct application agree at every address |
| PowerSyncRefinement.MutationsDoNotClash | src/core/auth/powersync.controller.ts:105-116 | no address is both written and deleted, and repeated operations on an address write the same row |
| PowerSyncRefinement.DirectLeavesTheRestAlone | src/core/auth/powersync-store.ts:77-82 | rows at addresses outside the batch stay as they are |
| PowerSyncRefinement.DurableKeyIsUnique | src/core/auth/powersync-store.ts:78 | the store's key determines tenant, type and id |
| PowerSyncRefinement.PlainKeysAreUnambiguous | src/core/auth/powersync.controller.ts:93 | in particular when types contain no colon either |
| PowerSyncRefinement.TypesShareAKeyExactlyWhen | src/core/auth/powersync.controller.ts:93 | two types can share a map key exactly when one, with its colon, begins the other |
| PowerSyncRefinement.SeparateKeysAreUnambiguous | src/core/auth/powersync.controller.ts:93 | keys are unambiguous for a tenant without a colon when no type, with its colon, begins another |
| PowerSyncRenaming.RowsStayInPlaceExactlyWhen | src/core/auth/powersync.controller.ts:107-112 | rows are written at the address of their operation, on every store and at every time, exactly when no payload leaves a row renamed |
| PowerSyncRenaming.PipelineIsDirectExactlyWhen | src/core/auth/powersync.controller.ts:87-117 | without payloads that name the time stamp, the upload is direct application on every store and at every time exactly when no payload leaves a row renamed |
| PowerSyncRenaming.SwappingUploadIsDirect | src/core/auth/powersync.controller.ts:107-112 | two payloads that swap ids under one stamp of their own rename both rows, and yet the upload is direct application on every store |
| PowerSyncRenaming.CollidingUploadIsNotDirect | src/core/auth/powersync.controller.ts:93 | two operations with one key and no renaming whose upload is not direct application |
| PowerSyncRenaming.UploadsAreDirectExactlyWhenSeparate | src/core/auth/powersync.controller.ts:87-117 | over a set of types, every upload without renaming payloads is direct application, on every store and at every time, exactly when no type, with its colon, begins another |
| PowerSyncRenaming.RenamingUploadMovesTheRow | src/core/auth/powersync.controller.ts:111-112 | a payload with another id puts the row elsewhere and leaves the addressed place empty |
| PowerSyncUploads.UploadRunIsDirect | src/core/auth/powersync.controller.ts:87-117 | over any run of uploads one after another the durable rows are those of all operations that were not refused, applied directly, and stay under their own keys |
| PowerSyncUploads.QueuedOperationsReachTheStore | src/core/auth/powersync-demo-client.ts:35-50 | from the offline queue to the store, for every interleaving of queueing and flushing: the operations of the flushes the endpoint accepts arrive, in order; all that were flushed do exactly when every flush is accepted |
| PowerSyncUploads.UnaddressedRowsSurvive | src/core/auth/powersync-store.ts:72-83 | rows no operation addresses survive every run |
| PowerSyncUploads.OtherTenantsAreIsolated | src/core/auth/powersync-store.ts:72-83 | rows of other tenants survive every run of uploads whatsoever, when tenants contain no colon |
| PowerSyncUploads.CallsLeaveOtherTenantsAlone | src/core/auth/powersync-tenant.ts:44-47 | over every run of calls by anyone else, with and without a tenant, a tenant's rows stay as they are |
| PowerSyncUploads.NoUploadDiscardsAnything | src/core/auth/powersync.controller.ts:100-101 | over every run of uploads one after another, under a clock that does not go back and from rows that are not ahead of it, no operation is discarded |
| PowerSyncUploads.DurableFieldsAreLastWrites | src/core/auth/powersync.controller.ts:87-117 | then every stored field of an addressed row is the last write of the whole run since the last deletion |
| OverlappingUploads.WriteLeavesWhatWasLoaded | src/core/auth/powersync.controller.ts:90-117 | a write leaves at its addresses what its operations make of the rows loaded before, whatever has been written since, and nothing changes elsewhere |
| OverlappingUploads.WriteOrderIsDirectExactlyWhenDisjoint | src/core/auth/powersync.controller.ts:87-117 | for every interleaving of loads and writes: the store is direct application in the order of the writes, for all payloads at these addresses, all stores and all times, exactly when no upload writes an address of another between that one's load and write |
| OverlappingUploads.OverlappingFieldsAreLastWrites | src/core/auth/powersync.controller.ts:87-117 | under that condition every stored field is the last write in the order of the writes |
| OverlappingUploads.OverlapLosesAnUpdate | src/core/auth/powersync.controller.ts:90-117 | load, load, write, write on one row takes back a field the second payload never names |
| Fingerprint.ExpandRecoversAddress | src/core/devices/fingerprint.ts:95-116 | every form 1 or form 2 text of an IPv6 address, in any case and with any leading zeros, expands to the same eight groups |
| Fingerprint.ExpandsExactlyWhen | src/core/devices/fingerprint.ts:100-116 | a text is expanded exactly when it has hexadecimal digits and colons only and eight groups, or one double colon with at most eight groups around it |
| Fingerprint.DenotesExactlyWhen | src/core/devices/fingerprint.ts:95-116 | a text is a form 1 or form 2 text exactly when it is expanded, its groups have one to four digits and its double colon stands for a group |
| Fingerprint.FiveDigitGroupIsAccepted | src/core/devices/fingerprint.ts:98-116 | 12345::1 denotes no address and is expanded |
| Fingerprint.StrippedIsNumeral | src/core/devices/fingerprint.ts:114-115 | a group without leading zeros is the shortest numeral of its value |
| Fingerprint.DigitsAre | src/core/devices/fingerprint.ts:104-115 | the hexadecimal digits of either case and what they stand for |
| Fingerprint.MaskOfText | src/core/devices/fingerprint.ts:61-78 | the mask of a well-formed address text, white space around it or not, is its first three octets and .0/24, or its first four groups and ::/64, each number in its shortest form |
| Fingerprint.QuadIsMasked | src/core/devices/fingerprint.ts:66-71 | every dotted quad of numbers up to 255 is recognised and masked so |
| Fingerprint.GroupsAreMasked | src/core/devices/fingerprint.ts:73-77 | every sequence of eight hexadecimal numbers below 65536 is recognised and masked so |
| Fingerprint.LooksLikeIpv4ExactlyWhen | src/core/devices/fingerprint.ts:50 | a text is taken for IPv4 exactly when it is four texts of one to three digits with dots between them |
| Fingerprint.InvalidExactlyWhen | src/core/devices/fingerprint.ts:57-78 | which texts are masked as invalid, both directions |
| Fingerprint.SameMaskExactlyWhenSameSubnet | src/core/devices/fingerprint.ts:61-78 | two addresses get one mask exactly when they are IPv4 with the same first three octets, or IPv6 with the same first four groups |
| Fingerprint.MixedFormIsInvalid | src/core/devices/fingerprint.ts:104 | an address text with both colons and dots is masked as invalid |
| Fingerprint.MaskHasNoPipe | src/core/devices/fingerprint.ts:61-78 | no mask contains a pipe, for any input text |
| Fingerprint.CompositeDeterminesParts | src/core/devices/fingerprint.ts:86-92 | the hashed text determines mode, trimmed user agent and mask |
| Fingerprint.HashedTextIs | src/core/devices/fingerprint.ts:86-92 | what is hashed in either mode |
| Fingerprint.SameDeviceExactlyWhen | src/core/devices/fingerprint.ts:86-93 | with an injective hash, equal fingerprints mean equal trimmed user agents and the same first three octets, or first four groups, both directions |
| DeviceHandling.SelectOldestSessionForRevoke | src/core/devices/device-handling.ts:87-103 | the loop returns the session last seen first, among those the one created first, among those the first of the list; none for an empty list |
| DeviceHandling.OldestIsLeast | src/core/devices/device-handling.ts:79-86 | the same of the specification, in terms of last activity, creation and position |
| DeviceHandling.SessionStore.ListForUser | src/core/devices/device-handling.runner.ts:32-33 | every session of the user once |
| DeviceHandling.HandleSessionCreated | src/core/devices/device-handling.runner.ts:108-185 | stamps the session, decides on the user's sessions, revokes at most the chosen one, and mails exactly on a new device when mails are on and the user is found |
| DeviceHandling.HandleSignIn | src/core/devices/device-handling.runner.ts:108-185 | inserting a session and handing it to the runner is one step of the runs below; the mail goes out exactly for a device new to a user with sessions |
| DeviceHandling.DecisionIs | src/core/devices/device-handling.ts:53-77 | first sign-in exactly for a user without sessions, known exactly for a device seen before; a session is chosen for revocation exactly for a new device over the cap, and no earlier session of the user was last seen before it, or at the same time and created before it |
| DeviceHandling.SignInOutcome | src/core/devices/device-handling.runner.ts:116-151 | the new session is stored with its fingerprint; of the others only the session that was seen longest ago goes, exactly when an eviction is due and the revocation succeeds, and none changes |
| DeviceHandling.SignInRespectsCapExactlyWhen | src/core/devices/device-handling.ts:19-21 | a sign-in ends within the cap exactly when there was room, or the device is new, the user was within the cap and the revocation succeeds |
| DeviceHandling.EvictionAddsADeviceExactlyWhen | src/core/devices/device-handling.ts:65-75 | an eviction still adds a device exactly when another session shares the evicted one's device |
| DeviceHandling.SessionsAreBounded | src/core/devices/device-handling.ts:53-77 | over every run of sign-ins, expiries and activity, a user holds at most the cap (at least one) plus the sign-ins from known devices and the evictions whose revocation failed |
| NewDeviceMail.Throttle.Check | src/core/devices/new-device-throttle.ts:44-56 | denied exactly inside the window, with the time that remains; a stale entry is dropped |
| NewDeviceMail.SendNewDevice | src/core/auth/better-auth-email-hooks.runner.ts:258-293 | delivers exactly when no entry of the user is inside the window and the payload builds and is accepted; the entry is set exactly then, dropped when it was stale, kept otherwise |
| NewDeviceMail.ThrottleSeesOnlyDeliveredMails | src/core/auth/better-auth-email-hooks.runner.ts:287-292 | after any run of sends the throttle allows exactly when no delivered mail to the user lies inside the window: clean-up and failed sends never show |
| NewDeviceMail.MailsAreSpaced | src/core/devices/new-device-throttle.ts:4-7 | any two mails delivered to one user are at least a window apart |
| NewDeviceMail.DenialPointsAtLatestMail | src/core/devices/new-device-throttle.ts:16-20 | after any run of sends a denial announces when the latest mail to the user will be a window old, and the user is allowed again exactly from then on |
| NewDeviceMail.FailedSendsDoNotCount | src/core/auth/better-auth-email-hooks.runner.ts:287-292 | a failed send can be struck from anywhere in a history and the same mails are delivered |
| NewDeviceMail.FailedSendsChangeNoDecision | src/core/auth/better-auth-email-hooks.runner.ts:287-292 | nor does striking it change any decision after the history |
| OverlappingMail.MailsAreSpacedExactlyWhenSequential | src/core/auth/better-auth-email-hooks.runner.ts:258-293 | over every interleaving of checks and finishes, mails to one user are a window apart at every timing exactly when no two deliverable calls for one user overlap |
| OverlappingMail.OverlappingCallsBothDeliver | src/core/auth/better-auth-email-hooks.runner.ts:258-293 | check, check, finish, finish in one instant delivers both mails |
| OverlappingMail.OneByOneIsRunOfSends | src/core/auth/better-auth-email-hooks.runner.ts:258-293 | an interleaving without overlaps has the entries and mails of the run of whole sends |
| EnvFile.PlanEnvFileUpdate | src/core/dx/env-file-update.ts:35-77 | refuses a key with other characters than A-Z, 0-9 and _ and a value with a newline; otherwise replaces the first assignment or appends the block |
| EnvFile.LinesAreTheText | src/core/dx/env-file-update.ts:42-47 | the lines are the texts between the line breaks: with their breaks they make up the file, no line holds a newline, a carriage return before a newline is part of the break, and an empty last line is none |
| EnvFile.AssignsExactlyWhen | src/core/dx/env-file-update.ts:32-33 | a line assigns a key exactly when it is the key, white space, an equals sign and a rest without line terminators |
| EnvFile.ReplacesFirstAssignment | src/core/dx/env-file-update.ts:49-63 | which line is replaced: the first that assigns the key; the assignment is appended exactly when none does |
| EnvFile.ReplacedLineIs | src/core/dx/env-file-update.ts:57-62 | the replaced line is key, value and the old comment from its first unquoted hash on, with a space before it unless it stood behind spaces only; all else is kept |
| EnvFile.AppendedTextIs | src/core/dx/env-file-update.ts:64-76 | the appended text and its line number, with the marker unless a line holds it |
| EnvFile.FinalNewlineExactlyWhen | src/core/dx/env-file-update.ts:43-60 | the new text ends in a newline exactly when the old one did or was empty |
| EnvFile.PreserveTrailingComment | src/core/dx/env-file-update.ts:83-91 | the value, one space where needed, and the old comment |
| EnvFile.FindCommentStart | src/core/dx/env-file-update.ts:93-105 | the quote flags find the first hash outside quotes |
| EnvFile.CommentStartsExactlyWhen | src/core/dx/env-file-update.ts:93-105 | the comment starts at a hash exactly when every quote before it is closed and every hash before it quoted |
| EnvFile.CleanExactlyWhen | src/core/dx/env-file-update.ts:93-105 | a value is clean exactly when its quotes are closed and its hashes quoted |
| EnvFile.StripSurroundingSpaces | src/core/dx/env-file-update.ts:107-112 | a space unless nothing but spaces precedes the comment |
| EnvFile.UpdateReadsBack | src/core/dx/env-file-update.ts:35-77 | for every file and accepted value: read back, the first assignment of the key is at the reported line and holds the value and at most the old comment, and every other line is kept, exactly when the value is on one line and the file's own carriage returns are kept; the final newline is kept always |
| EnvFile.AppendedBlockShape | src/core/dx/env-file-update.ts:64-76 | what is appended: a blank line behind other lines, the marker, the assignment, nothing else |
| EnvFile.AppendKeepsOneMarker | src/core/dx/env-file-update.ts:64-69 | a missing marker is added once, and a marker that is there is not repeated |
| EnvFile.AssignmentIsRead | src/core/dx/env-file-update.ts:33 | a written assignment is recognised again exactly when its text contains no line terminator |
| EnvFile.CommentSurvives | src/core/dx/env-file-update.ts:79-91 | the comment behind a clean value is the old comment, unchanged |
| EnvFile.ValueIsReadExactlyWhenClean | src/core/dx/env-file-update.ts:79-91 | a reader that stops at the comment gets the value back exactly when it has no unquoted hash and no open quote |
| EnvFile.CleanUpdatesSettle | src/core/dx/env-file-update.ts:83-112 | with such a value two updates of a line settle it, and one already does exactly when the gap was right |
| EnvFile.UpdatesSettleExactlyWhenClean | src/core/dx/env-file-update.ts:83-112 | a third update changes nothing, whatever the line was, exactly for such values |
| EnvFile.SecondUpdateIsIdle | src/core/dx/env-file-update.ts:35-77 | on whole files, a second update with a clean value changes nothing exactly when the file's own carriage returns are kept and the gap before the old comment was right |
| EnvFile.RepeatedUpdatesSettle | src/core/dx/env-file-update.ts:35-77 | on every file, a third update changes nothing exactly when the lines after the first one lose no carriage return and no wrong gap; so it is on every file whose own carriage returns are kept |
| LineSplitter.Splitter.OnData | scripts/dev.ts:270-279 | the inner loop ends, emits the complete lines of buffer and chunk and keeps the rest |
| LineSplitter.Splitter.OnEnd | scripts/dev.ts:280-282 | emits the buffer when it is not empty |
| LineSplitter.ChunksDoNotShow | scripts/dev.ts:265-283 | emitted lines and buffer are the parts of the whole text received so far |
| LineSplitter.EmissionIsLinesOfText | scripts/dev.ts:265-283 | at the end the emitted lines are the lines of the whole text |
| LineSplitter.NothingIsLost | scripts/dev.ts:265-283 | joined by newlines, lines and buffer are the text received; no line contains a newline |
| LineSplitter.SameTextSameLines | scripts/dev.ts:265-283 | two ways of cutting one text emit the same lines |
| BlindIndex.StampWrite | src/core/auth/user-blind-index.extension.ts:34-67 | create and update stamp the hash of a plain, non-blank address in place and leave the rest |
| BlindIndex.StampUpsert | src/core/auth/user-blind-index.extension.ts:68-87 | upsert stamps both branches |
| BlindIndex.SameHashExactlyWhen | src/core/encryption/blind-index.ts:88-119 | two addresses have one hash exactly when they differ at most in case and in the white space around them, and then find the same rows; none exactly for blank ones |
| BlindIndex.UpdateKeepsStepExactlyWhen | src/core/auth/user-blind-index.extension.ts:51-67 | an update without a hash of its own keeps step exactly when it leaves the address alone, gives a plain one that is not blank, or one that normalises like the old |
| BlindIndex.WriteKeepsStepExactlyWhen | src/core/auth/user-blind-index.extension.ts:34-87 | a write keeps every table in step exactly under a condition on its own data |
| BlindIndex.InStepWritesKeepStep | src/core/auth/user-blind-index.extension.ts:15-20 | every table reached by such writes keeps hash and address in step |
| BlindIndex.IndexAgreesExactlyWhenInStep | src/core/auth/user-blind-index.lookup.ts:9-25 | lookup by hash finds exactly what a scan by normalised address finds, for every address, exactly when all rows are in step |
| BlindIndex.FindUserByEmail | src/core/auth/user-blind-index.lookup.ts:26-43 | returns a row with the address's hash, none exactly when there is none |
| BlindIndex.BlankUpdateLeavesStaleHash | src/core/auth/user-blind-index.extension.ts:59-65 | after an update to a blank address the index still finds the row under the old one |
| BlindIndex.NestedSetLeavesStaleHash | src/core/auth/user-blind-index.extension.ts:59 | an update through a nested set keeps step exactly when the new address normalises like the old |
| RingBuffers.LogBuffer.Push | src/core/dx/log-buffer.ts:30-36 | keeps the last records and numbers the new one |
| RingBuffers.TraceBuffer.Record | src/core/dx/trace-buffer.ts:57-62 | the shift loop ends and keeps the last records |
| RingBuffers.TraceBuffer.Summary | src/core/dx/trace-buffer.ts:80-88 | the number of server errors, and the greatest duration |
| RingBuffers.RecentIsTailExactlyWhen | src/core/dx/log-buffer.ts:39-42 | for which numbers, negative ones included, the latest records are returned |
| RingBuffers.BufferIsTailOfHistory | src/core/dx/log-buffer.ts:30-59 | after any pushes and clears the buffer is the last records since the last clear, as many as fit |
| RingBuffers.NumbersAreContiguous | src/core/dx/log-buffer.ts:31 | sequence numbers are contiguous and never reused |
| RingBuffers.PollSeesNewRecords | src/core/dx/log-buffer.ts:44-47 | a poll with the cursor of a page that has seen what is buffered returns the newer records still in the buffer |
| RingBuffers.PollsReceiveEachOnce | src/core/dx/clients/pages/LogsPage.tsx:77-91 | over every run of pushes, clears and polls that do not overlap the page receives pushed records only, each at most once and in order |
| RingBuffers.PollsAreCompleteExactlyWhen | src/core/dx/clients/pages/LogsPage.tsx:77-91 | polls that do not overlap bring all records exactly when, in each gap between polls, no clear discards a record pushed in the gap and no more are pushed than fit |
| OverlappingPolls.OneByOneIsPolled | src/core/dx/clients/pages/LogsPage.tsx:77-103 | the runs of those two results are the interleavings in which every poll is answered before the next one asks |
| OverlappingPolls.LogsEachOnceExactlyWhenSequential | src/core/dx/clients/pages/LogsPage.tsx:77-103 | for every interleaving of asking, serving and answering: the page displays each record at most once, and in order, wherever records are pushed and cleared, exactly when no two answered polls overlap |
| OverlappingPolls.OverlappingTicksRepeat | src/core/dx/clients/pages/LogsPage.tsx:77-103 | ask, ask, serve, serve, answer, answer displays a record twice |
| OverlappingPolls.LogsLoseNothing | src/core/dx/clients/pages/LogsPage.tsx:77-103 | whatever the buffer holds when an answered poll is served is displayed, however the polls overlap |
| OverlappingPolls.TracesEachOnce | src/core/dx/clients/pages/TracesPage.tsx:86-104 | the trace page displays each record at most once however its polls overlap |
| OverlappingPolls.TracesLoseNothingExactlyWhenInOrder | src/core/dx/clients/pages/TracesPage.tsx:86-104 | it displays whatever is held when an answered poll is served, wherever records are pushed and cleared, exactly when answers arrive in the order they were served |
| OverlappingPolls.TraceAnswerIsNewerExactlyWhen | src/core/dx/hub.controller.ts:764-781 | the answer to a trace poll is what is newer than its cursor exactly when all that is held is; the page's own filter displays the same either way |
| HtmlEscape.FivePassesAreOne | src/core/dx/dev-portal-shell.ts:183-190 | the five replacement passes are one character-by-character map |
| HtmlEscape.EscapedHasNoMarkup | src/core/dx/dev-portal-shell.ts:183-190 | the output contains no angle bracket and no quote |
| HtmlEscape.UnescapedEscape | src/core/dx/dev-portal-shell.ts:183-190 | reading the entities gives the text back |
| HtmlEscape.EscapeIsInjective | src/core/dx/dev-portal-shell.ts:183-190 | different texts stay different |
| Erd.InferRelations | src/core/dx/erd-builder.ts:107-149 | the loops with the seen-set emit the contributions of all fields in order |
| Erd.OneToManysAreReferences | src/core/dx/erd-builder.ts:137-145 | the one-to-many relations come in order, one each, from the fields that are no list and have the name of another model as type; a reference to the own model gives none |
| Erd.RelationsComeFromFields | src/core/dx/erd-builder.ts:112-147 | every relation carries the model, type and name of a field that refers to another model, many-to-many exactly for mutual lists |
| Erd.ManyToManyExactlyWhenMutual | src/core/dx/erd-builder.ts:121-135 | two models are linked by exactly one many-to-many relation when both hold a list of the other, and by none otherwise |
| Erd.PairKeyNamesThePair | src/core/dx/erd-builder.ts:125 | the sorted key names the unordered pair |
| Erd.RenderMermaid | src/core/dx/erd-builder.ts:151-172 | header, model blocks, then one line for each relation in order |
| Erd.DiagramShowsModel | src/core/dx/erd-builder.ts:153-163 | every model has its block: its name, type and name of each field in order, and the end |
| Erd.DiagramShowsRelations | src/core/dx/erd-builder.ts:151-172 | header first, the lines of the relations last, each kind with its arrow |
| Erd.RelationLineIsInjective | src/core/dx/erd-builder.ts:164-170 | a relation line determines its relation |

## Left out

- EditDistance: texts are sequences of characters; the UTF-16 code units of characters outside the basic plane are not modelled.
- RowsStayInPlaceExactlyWhen: it is stated for clocks that never go back while one batch is replayed; with a clock that goes back, a later correct id can be discarded.
- PipelineIsDirectExactlyWhen: it is stated for payloads without an `updatedAt`; SwappingUploadIsDirect shows why.
- PipelineIsDirect: it assumes that no two operations of a batch, nor an operation and a row, share a key with different meanings (UploadsAreDirectExactlyWhenSeparate says for which types that holds always), and a store whose rows are kept under their own keys, which uploads keep so.
- LoadByTypes: the order in which the store lists its rows.
- ApplyCrudBatch: the rejected fields of an operation are a set; their order in the answer is not modelled.
- WriteOrderIsDirectExactlyWhenDisjoint: a write is one step, as it is in the in-memory store; uploads whose payloads rename rows.
- LogsEachOnceExactlyWhenSequential: buffers that hold nothing at all; a page starts empty, as if its first rows came with a poll; the number of rows a page keeps on display.
- TracesEachOnce: the order of the rows on display, which the page shows newest first.
- PrismaPowerSyncStore, transactions, feature flags and request parsing beyond size and non-empty texts.
- ExpandRecoversAddress: which groups an accepted text that is no address expands to; ExpandsExactlyWhen and DenotesExactlyWhen say which texts these are.
- FingerprintSession: the hash is a parameter; SHA-256 itself is not modelled.
- HandleSessionCreated: mail contents, GeoIP, user-agent labels and how the user is looked up; store errors other than a failing revocation; sign-ins of one user that overlap.
- SendNewDevice: the outbox and its idempotency keys; the other mail kinds, which have no throttle.
- MailsAreSpacedExactlyWhenSequential: calls between whose check and finish the process stops; a throttle shared by several processes.
- UpdateReadsBack: what exactly is read back from a file that loses a carriage return.
- OnData: decoding of UTF-8 across chunks.
- InStepWritesKeepStep: bulk writes, raw SQL and the unique constraint on the hash column; a digest collision.
- Push: the fields of a log record are opaque.
- TraceBuffer: a negative capacity, for which the shift loop of the source would not end.
- InferRelations: parsing of the schema text; relations of a model with itself, which the source skips, are skipped here too.
- SearchPalettePages, LogBuffer and TraceBuffer: the default cap and the default sizes, which are parameters here.
- The respawn and shutdown logic of the dev runner, the NestJS wiring and the single-page application.

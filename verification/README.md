# Proofs about cowd

This project models the parts of cowd where correctness spans many steps or many functions, and proves what those
parts are for. `dafny verify dfyconfig.toml` checks all of it with Dafny 4.11.

- **The fact directory.** Clients page through the facts they are authorised to see while others write. The first page
  records a creation fence and the revisions of the granted keys; later pages compare revisions and filter by the
  fence. PostgreSQL is a step system of transactions with row locks and an invalidation trigger
  (`PostgresTransactions`), what each statement does is in `PostgresStatements`, the page query is read against it
  (`PostgresCatalog`, `PostgresFactLedger`), and the in-memory ledger (`EphemeralLedger`, `EphemeralFactLedger`) is
  held to the same frozen answer (`FactCatalog`). Main results: `SessionShowsExactly` for both ledgers (what a
  session's pages show, field by field), `PaginationIsFrozen`, `NextPageFailsExactly`, `NoFalseAlarm`,
  `FenceMovesExactly`.
- **The credential authority.** Entitlements change by preview and confirmation under two counters, with a write-ahead
  audit log and storage that may fail, over several processes with different catalogues (`AuthCatalog`, `Authority`,
  `AuthCredential`, `AuthReconcile`, `AuthCeiling`, `AuthLifetime`, `LocalAuthority`). Main results:
  `NoStaleConfirmation`, `UpdateAcceptedExactly`, `RunKeepsGood`, `CeilingExactly`, `RevocationHolds`,
  `ReplacementHolds`, `ReconciliationExact`, `ReopenExactly`, `LifeKeepsSound`, `CompositionForgetsOrder`.
- **The fact kernel.** An inverted index stands in for a scan, and a review pipeline keeps active facts unique
  (`FactRecords`, `FactIndex`, `FactSearch`, `FactRanking`, `FactIndexer`, `FactReview`, `FactPromotion`,
  `FactHealth`, `FactClaims`, `FactKernel`, `FactService`, `LedgerSnapshot`). Main results: `SearchIsScan`,
  `SearchRanks`, `IndexFactExactly`, `RunKeepsIndexed`, `RunKeepsSound`, `RepeatedReviewExactly`, `RecallIsScan`,
  `DecisionReads`, `ReportExactly`.
- **The APP protocol.** Signed edges, canonical sets, normal forms and encodings (`CanonicalSets`, `Operations`,
  `OperationForms`, `CoreBridge`, `BridgeLimit`, `CoreCatalog`, `NormalForms`, `ExecutionSummary`, `Encodings`). Main
  results: `BridgeAcceptsExactly`, `BridgeAfterOrigin`, `MissingIsUnreachable`, `AcceptedHoldsExactly`,
  `HandshakeExactly`, `NormalFormForgetsOrder`, `NormalFormReads`, `BindingReads`, `EventIdInjective`.
- **The connectors.** The escaped LIKE pattern (`LikeSearch`), CSV pages (`CsvSource`, `CsvPages`) and the bulkhead
  (`Bulkhead`). Main results: `SearchListsMentions`, `FollowReadsBack`, `LineRoundTripExactly`, `RunReflects`.

`Order`, `Sorting`, `Text` and `Common` hold what the components share: the key order, stable sorting, white space and
UTF-8 length.

What comes from outside is a parameter: time, fresh ids, lower-casing and the class of alphanumeric characters, digests
(assumed injective where a theorem says so), and whether a durable write succeeds.

Some properties one might expect do not hold, and the exact condition is proved instead.

- Indexing an id again can leave stale postings: the index stays exact if and only if the new version covers the old
  (`IndexFactExactly`, `StalePostingScores`, `RecallIsScan`).
- A principal that holds every capability can be refused over an edge: if and only if Core and edge capabilities
  together number more than 64 (`BridgeAcceptsExactly`, `HolderIsRefused`).
- Reviewing a batch twice can promote twice: candidates that share an id overwrite each other; the second review
  promotes nothing if and only if the first left every candidate settled (`SharedIdPromotesAgain`,
  `RepeatedReviewExactly`).
- Reconciliation can leave an entitlement that the audit log does not tell: if and only if the new catalogue does not
  keep the selection and its ceiling (`DroppedAppsAreUnlogged`, `ReconcileLoggedExactly`).
- A recovery that is reported as failed can still activate the credential: revocation holds exactly until a recovery
  passes its checks, written or not (`FailedRecoveryActivates`, `RevocationHolds`).
- The health check can misread a promoted matrix fact: if and only if a part is empty or has outer white space, or the
  entity or attribute holds a space (`TwoWordsMisread`, `PromotedClaimExactly`).
- Audit references can repeat: if and only if an update is logged while another one is pending (`RetryRepeatsRef`,
  `RunRefsExactly`).
- A CSV line does not come back as it was written if and only if a field has outer white space
  (`PaddedFieldIsTrimmed`, `LineRoundTripExactly`).
- A promotion verdict can come without a fact: exactly for knowledge that was permitted, evidenced and confident but
  not observed (`PromotedWithoutFact`).

## Model

| member | source | states |
|---|---|---|
| `FactCatalog.KeysInjective` | crates/fact-kernel/src/ledger.rs:82-99 | Fact keys and scope keys tell ids and scopes apart and never collide with one another. |
| `FactCatalog.AuthorizedIsFenced` | crates/fact-kernel/src/ledger.rs:82-99 | Every row that a grant authorises has a key among the grant's revision keys. |
| `FactCatalog.UngrantedIsUnfenced` | crates/fact-kernel/src/ledger.rs:82-99 | A row with neither a granted id nor a granted scope has no key among them. |
| `FactCatalog.IdsFromSuffix` | crates/fact-postgres/src/catalog.rs:38-47 | Resuming after the k-th id yields exactly the rest of the ascending listing. |
| `FactCatalog.FrozenStep` | crates/fact-postgres/src/catalog.rs:38-57 | A page that answers from the frozen set extends the collected answer by the next stretch, and ends the session exactly at the end of the answer. |
| `PostgresTransactions.WritePreservesInv` | crates/fact-postgres/src/lib.rs:94-110 | A statement and its trigger keep the invariant that every change a transaction holds is covered by the revision increments it holds, under row locks. |
| `PostgresTransactions.UpdatePreservesInv` | crates/fact-postgres/src/lib.rs:94-110 | So does an UPDATE that may change the payload, the scope, the boundary and the id. |
| `PostgresTransactions.DeletePreservesInv` | crates/fact-postgres/src/lib.rs:94-110 | So does a DELETE. |
| `PostgresTransactions.CommitPreservesInv` | crates/fact-postgres/src/lib.rs:94-110 | So does a commit, which installs rows and revisions together. |
| `PostgresTransactions.RunPreservesInv` | crates/fact-postgres/src/lib.rs:87-113 | Every state of the tables reachable by any interleaving of transactions keeps the invariant. |
| `PostgresStatements.InsertExactly` | crates/fact-postgres/src/lib.rs:423-445 | An insertion takes effect exactly when the id is free and unlocked; then the transaction, and no other, sees the row, created by itself, and no revision is to rise. |
| `PostgresStatements.UpdateExactly` | crates/fact-postgres/src/lib.rs:94-110 | An update takes effect exactly when the row is there and both ids are unlocked and free; it keeps the creation stamp and leaves one pending increment per key of the old and new row, or none when payload, scope and boundary are the same. |
| `PostgresStatements.DeleteExactly` | crates/fact-postgres/src/lib.rs:94-110 | A deletion hides the row from its transaction alone and leaves one pending increment per key of the row. |
| `PostgresStatements.BeginExactly` | crates/fact-postgres/src/lib.rs:94-110 | A transaction begins with the next id, sees the committed rows and has nothing pending. |
| `PostgresStatements.FinishExactly` | crates/fact-postgres/src/lib.rs:94-110 | A commit publishes exactly what the transaction saw and raises every revision by its pending increments; an abort publishes nothing. |
| `PostgresCatalog.FenceIsExact` | crates/fact-postgres/src/catalog.rs:27-44 | The recorded triple (xmin, xmax, in-progress set) makes visible exactly the transactions that had finished when page one was read. |
| `PostgresCatalog.UnmovedRevisionsFreeze` | crates/fact-postgres/src/catalog.rs:17-47 | While no granted revision has moved, the fenced selection is exactly the authorised matching rows of page one, with the contents they had then. |
| `PostgresCatalog.PageReadIsFrozen` | crates/fact-postgres/src/catalog.rs:13-58 | A later page either reports that the source changed or is the next stretch of page one's answer. |
| `PostgresCatalog.PaginationIsFrozen` | crates/fact-postgres/src/catalog.rs:13-58 | For every history before page one and every interleaving of writer steps with page reads, a session that ends has collected exactly the authorised matching rows committed at page one, with their contents of that moment, each once and in ascending id order; a session under way holds a prefix of that answer. |
| `PostgresCatalog.SessionShowsExactly` | crates/fact-postgres/src/catalog.rs:13-58 | Over every history and interleaving, the pages of a session together list, in ascending id order and each once, exactly the rows committed before page one whose id is granted, or whose scope and boundary both are, with a matching term and the exact id if one is asked for. |
| `PostgresCatalog.PageFailsExactly` | crates/fact-postgres/src/catalog.rs:17-26 | A later page of a session that follows page one fails if and only if a granted revision has moved in between. |
| `PostgresCatalog.NextPageFailsExactly` | crates/fact-postgres/src/catalog.rs:17-26 | Over every history and every interleaving, the next page of a session under way fails if and only if a granted revision has moved since page one was read. |
| `PostgresCatalog.PageMakesProgress` | crates/fact-postgres/src/catalog.rs:35-57 | A page without error either ends the session or adds a full page to it, whatever limit is asked for. |
| `PostgresCatalog.GrantedChangeMovesFence` | crates/fact-postgres/src/lib.rs:94-110 | Committing a change to a stored row that the grant authorises before or after the change raises one of the grant's revisions. |
| `PostgresCatalog.HarmlessStatement` | crates/fact-postgres/src/lib.rs:94-110 | Inserts, updates that change nothing, and changes outside the granted ids and scopes before and after touch no revision of the grant. |
| `PostgresCatalog.NoFalseAlarm` | crates/fact-postgres/src/catalog.rs:17-26 | If no transaction open at page one has touched a granted key and none does later, no page ever fails, whatever else is inserted, changed, moved or deleted in between. |
| `PostgresFactLedger.BatchIsAtomic` | crates/fact-postgres/src/lib.rs:404-445 | A batch either leaves the committed tables as they were, when a row is locked by another transaction, or commits the last version of every fact of the batch and changes no other row. |
| `PostgresFactLedger.BatchInPreservesInv` | crates/fact-postgres/src/lib.rs:404-445 | A batch keeps the invariant of the tables, so it may occur in any run. |
| `PostgresFactLedger.UpsertAsWrite` | crates/fact-postgres/src/lib.rs:423-445 | What row an upsert leaves and which revision keys it increments, for a new, a changed and an unchanged fact. |
| `PostgresFactLedger.Ledger.Invalidate` | crates/fact-postgres/src/lib.rs:94-110 | The trigger adds one to each distinct key of the old and the new row, and does nothing else. |
| `PostgresFactLedger.Ledger.UpsertFactIn` | crates/fact-postgres/src/lib.rs:423-445 | The upsert's new state is the specified one, and it is refused exactly when another transaction holds the row. |
| `PostgresFactLedger.Ledger.UpsertEach` | crates/fact-postgres/src/lib.rs:404-420 | The loop over a batch writes all of it or stops at the first locked row; other transactions are untouched. |
| `PostgresFactLedger.Ledger.PersistFacts` | crates/fact-postgres/src/lib.rs:404-420 | A batch in one transaction commits exactly when no row of it is locked, with the specified tables. |
| `PostgresFactLedger.Ledger.ReadRevisions` | crates/fact-postgres/src/catalog.rs:17-19 | The revisions read are those of the grant's keys, zero where there is none. |
| `PostgresFactLedger.Ledger.ReadCatalogPage` | crates/fact-postgres/src/catalog.rs:5-58 | The statements of one page compute the page that the frozen-answer theorem is about, errors included. |
| `PostgresFactLedger.Increment` | crates/fact-postgres/src/lib.rs:100-107 | The trigger's loop increments each distinct key once. |
| `PostgresFactLedger.TruncatePage` | crates/fact-postgres/src/catalog.rs:35-57 | Asking for one row more and dropping it again gives the page and its next id. |
| `EphemeralLedger.UpsertRevision` | crates/fact-kernel/src/ledger.rs:423-448 | An upsert raises a revision by one exactly for the id and the old and new scope of a stored fact that it changes. |
| `EphemeralLedger.FenceMovesExactly` | crates/fact-kernel/src/ledger.rs:423-448 | An upsert moves a grant's revisions if and only if it changes a stored fact that has a granted id or, before or after, a granted scope. |
| `EphemeralLedger.UnmovedRevisionsFreeze` | crates/fact-kernel/src/ledger.rs:452-539 | While no granted revision has moved, the facts behind the fence are exactly those of page one, unchanged. |
| `EphemeralLedger.PaginationIsFrozen` | crates/fact-kernel/src/ledger.rs:413-539 | With arbitrary upserts between pages and any page limits, a completed session has collected exactly the authorised matching facts of page one, with their contents of that moment, each once and in ascending id order. |
| `EphemeralLedger.SessionShowsExactly` | crates/fact-kernel/src/ledger.rs:413-539 | Likewise in memory: exactly the facts last stored before page one that the grant, its boundaries, the terms and the exact id allow, in ascending id order and each once. |
| `EphemeralFactLedger.SortedChoice` | crates/fact-kernel/src/ledger.rs:493-529 | Filtering the list and sorting it by id is the ordered selection of the table. |
| `EphemeralFactLedger.Ledger.UpsertFact` | crates/fact-kernel/src/ledger.rs:413-450 | Searching the list, replacing or appending, and bumping counters implements the upsert of the table. |
| `EphemeralFactLedger.Ledger.Choose` | crates/fact-kernel/src/ledger.rs:493-528 | The filter picks exactly the facts of the fenced selection behind the cursor, each once. |
| `EphemeralFactLedger.Ledger.CatalogPage` | crates/fact-kernel/src/ledger.rs:452-539 | The in-memory page is the specified page, with the same errors. |
| `EphemeralFactLedger.RaiseEach` | crates/fact-kernel/src/ledger.rs:436-438 | The loop over changed keys adds one to each. |
| `EphemeralFactLedger.RaiseChanged` | crates/fact-kernel/src/ledger.rs:424-439 | A changed fact raises each of its keys by one, an unchanged one raises none. |
| `EphemeralFactLedger.KeysOfChange` | crates/fact-kernel/src/ledger.rs:429-435 | The keys collected for a changed fact are its id, its old scope and its new scope, each once. |
| `EphemeralFactLedger.TruncateRecords` | crates/fact-kernel/src/ledger.rs:530-533 | The page is cut at the limit and the id that resumes it always exists when rows remain. |
| `AuthCatalog.ComputeCapabilities` | crates/auth-broker/src/lib.rs:159-206 | The ceiling of a selection is the strictly ascending union of the core and selected APP capabilities, or the error of the first mismatch. |
| `AuthCatalog.ExtendByApps` | crates/auth-broker/src/lib.rs:183-202 | The loop fails exactly when an APP does not offer its selected profile; otherwise it collects exactly the selected capabilities. |
| `AuthCatalog.CompositionForgetsOrder` | crates/auth-broker/src/lib.rs:89-128 | Composing a catalogue from the same manifests in any order gives the same catalogue or the same error. |
| `AuthCeiling.CeilingExactly` | crates/auth-broker/src/lib.rs:159-206 | A selection has a ceiling if and only if the core profile is there and every APP, and nothing else, is given a profile it has; the ceiling lists in strictly ascending order exactly what the core profile and the selected profiles list. |
| `AuthCeiling.ReconciledExactly` | crates/auth-broker/src/lib.rs:941-984 | A reconciled state has for each APP the profile it had where the APP still has it and the default otherwise, and is entitled to exactly what the core profile and these profiles list. |
| `AuthCeiling.EnrolledExactly` | crates/auth-broker/src/lib.rs:822-843 | An enrolled state is active under its credential, at epoch and revision one, with the operator core profile and the default profile of every APP, entitled to exactly what these list. |
| `AuthCeiling.ComposedExactly` | crates/auth-broker/src/lib.rs:89-128 | A composed catalogue holds, in strictly ascending id order, exactly one entry per manifest with a default profile: its profiles in order, the id of the first default, and that profile's surfaces. |
| `AuthCeiling.OwnNamespace` | crates/auth-broker/src/lib.rs:242-313 | In a valid catalogue every capability of an APP profile begins with the id of that APP and a dot, and has more. |
| `Authority.StepAdvances` | crates/auth-broker/src/lib.rs:898-906 | A successful step raises the epoch by exactly one, and an entitlement update the revision too; no step, successful or failed, lowers either counter, and a state that changed has a higher epoch unless the epoch range was exhausted. |
| `Authority.RunAdvances` | crates/auth-broker/src/lib.rs:1178-1322 | The same over every run of requests: below the end of the range, equal epochs mean that nothing changed. |
| `Authority.NoStaleConfirmation` | crates/auth-broker/src/lib.rs:1178-1280 | An update accepted with a confirmation issued by a preview, however many requests lie between, means that nothing changed since the preview, that it asks for the previewed selection, and that it installs exactly the previewed ceiling. |
| `Authority.OwnEntitlementsGranted` | crates/auth-broker/src/lib.rs:908-936 | Reading the entitlements of a state that fits its catalogue cannot fail and denies nothing. |
| `Authority.ProjectionExactly` | crates/auth-broker/src/lib.rs:908-936 | A projection fails exactly when something unknown is requested, naming the first; otherwise it shares the requested capabilities out into granted and denied by entitlement, each once and in the order of the request. |
| `Authority.ApproveExactly` | crates/auth-broker/src/lib.rs:1854-1880 | Approval fails exactly on an unknown capability, naming the first, and otherwise lists what was requested once each in order of first occurrence. |
| `Authority.PreviewExactly` | crates/auth-broker/src/lib.rs:1253-1280 | A preview is given exactly to the active credential for a selection with a ceiling, with the current counters and a digest over all five. |
| `Authority.UpdateAcceptedExactly` | crates/auth-broker/src/lib.rs:1178-1250 | An update is accepted if and only if the credential is the active one, epoch and revision are current, the selection has a ceiling, the confirmation is that of the selection and its ceiling, no counter is exhausted and both writes succeed; then every field of the new state and of the final read. |
| `Authority.UpdateIsFailureAtomic` | crates/auth-broker/src/lib.rs:1187-1250 | A refused or failed update leaves memory as it was, and nothing reaches the disk before the audit record that tells both the previous and the new core profile, APP profiles and entitlement. |
| `Authority.RunKeepsGood` | crates/auth-broker/src/lib.rs:859-896 | Over every run of one process, with any storage failures, the states in memory and on disk validate and the audit log tells the selection and ceiling of their last entitlement update. |
| `Authority.StepRefsExactly` | crates/auth-broker/src/lib.rs:1228-1249 | A step keeps audit references unique if and only if it does not log an update while another one, logged but not installed, is pending at the same epoch and revision. |
| `Authority.RunRefsExactly` | crates/auth-broker/src/lib.rs:1228-1249 | The same over every run. |
| `Authority.RetryRepeatsRef` | crates/auth-broker/src/lib.rs:1228-1249 | An update whose state write is lost, when retried, leaves two audit records with one reference. |
| `AuthCredential.ChangeExactly` | crates/auth-broker/src/lib.rs:1282-1322 | Rotation, revocation and recovery take effect in memory exactly when their checks pass, with the status, digest, epoch and time each leads to, and are reported as done exactly when the epoch advanced and the state was written. |
| `AuthCredential.RevokedIsFrozen` | crates/auth-broker/src/lib.rs:1282-1322 | While no recovery passes its checks, no request whatever changes a revoked authority, its disk or its log. |
| `AuthCredential.RevocationHolds` | crates/auth-broker/src/lib.rs:1295-1322 | After a successful revocation every read, preview, update, rotation and revocation with that credential is refused as revoked until a recovery passes its checks, over every run. |
| `AuthCredential.FailedRecoveryActivates` | crates/auth-broker/src/lib.rs:1306-1322 | A recovery that passes its checks but is not written is reported as failed and yet leaves the credential active in memory and revoked on disk. |
| `AuthCredential.ReplacementHolds` | crates/auth-broker/src/lib.rs:1282-1322 | After a rotation or recovery that passed its checks exactly the replacement opens the authority, over every run until the next of them. |
| `AuthLifetime.ReopenKeepsSound` | crates/auth-broker/src/lib.rs:996-1048 | Opening with any catalogue, credential and storage outcome leaves a valid state on disk and, if it succeeds, in memory. |
| `AuthLifetime.LifeKeepsSound` | crates/auth-broker/src/lib.rs:996-1048 | Over every life of serving, crashing and reopening with any catalogues and storage failures, what is in memory and on disk validates against the catalogue it was written for, and the log holds the reference of its last update. |
| `AuthLifetime.ReopenExactly` | crates/auth-broker/src/lib.rs:996-1048 | Opening succeeds if and only if the credential is the stored one and not blank, the catalogue is valid, and the state is valid for it or can be reconciled and written; a failure leaves the log alone, and the disk too unless the write failed late. |
| `AuthLifetime.ReconcileLoggedExactly` | crates/auth-broker/src/lib.rs:941-984 | Reconciliation writes no audit record, so the log still tells the selection and ceiling of an updated state if and only if the new catalogue keeps both. |
| `AuthLifetime.LifeKeepsLogged` | crates/auth-broker/src/lib.rs:996-1048 | Over every life in which no opening changes the selection or ceiling of an updated state, the log tells the selection and ceiling of what is in memory and on disk. |
| `AuthLifetime.DroppedAppsAreUnlogged` | crates/auth-broker/src/lib.rs:1027-1029 | Opening an updated state with a catalogue that has dropped its APPs leaves a running authority whose entitlements no audit record tells. |
| `AuthReconcile.CatalogRulesCoherent` | crates/auth-broker/src/lib.rs:159-206 | The ceilings of any catalogue are ascending lists of capabilities the catalogue knows, as the state machine requires. |
| `AuthReconcile.ReselectedExactly` | crates/auth-broker/src/lib.rs:958-971 | A reconciled selection has one profile per APP of the catalogue and no other: kept where still offered, the default otherwise. |
| `AuthReconcile.ReselectedFits` | crates/auth-broker/src/lib.rs:941-984 | A reconciled selection always has a ceiling while the core profile is offered. |
| `AuthReconcile.EnrollmentIsGood` | crates/auth-broker/src/lib.rs:822-843 | Enrolling on a valid catalogue succeeds for every non-blank credential and yields a valid state. |
| `AuthReconcile.ReconciliationExact` | crates/auth-broker/src/lib.rs:941-984 | Reconciling a valid state with a valid catalogue succeeds exactly when the core profile is still offered and no counter is exhausted; the result validates, keeps the credential, has the reselected profiles and their sorted union, and reconciling again changes nothing. |
| `AuthReconcile.ReconcileSameCatalog` | crates/auth-broker/src/lib.rs:945-948 | A state is left alone by the catalogue it was written for. |
| `LocalAuthority.ApproveCapabilities` | crates/auth-broker/src/lib.rs:1854-1880 | Requested capabilities are collected once each in request order, or the first unknown one is reported. |
| `LocalAuthority.Reselect` | crates/auth-broker/src/lib.rs:958-971 | Dropping vanished APPs and filling in the rest in place gives the specified selection. |
| `LocalAuthority.LocalAuthority.SetHumanEntitlements` | crates/auth-broker/src/lib.rs:1178-1251 | Working on a copy and installing it after both writes is the specified update, on every failure path. |
| `LocalAuthority.LocalAuthority.ChangeLifecycle` | crates/auth-broker/src/lib.rs:1282-1322 | Rotation, revocation and recovery edit memory before persisting, as specified on success and on failure. |
| `LocalAuthority.LocalAuthority.AdvanceEpoch` | crates/auth-broker/src/lib.rs:898-906 | The epoch advances by one or reports exhaustion and changes nothing. |
| `LocalAuthority.LocalAuthority.Persist` | crates/auth-broker/src/lib.rs:1323-1330 | A state that does not validate is never written; a failed write is reported whether or not it reached the disk. |
| `LocalAuthority.LocalAuthority.ReconcileCatalog` | crates/auth-broker/src/lib.rs:941-984 | The in-place reconciliation gives the specified state and says whether it changed anything; on an error it leaves exactly the fields edited so far. |
| `LocalAuthority.LocalAuthority.Revise` | crates/auth-broker/src/lib.rs:975-982 | Raising the revision and the epoch stops at the first exhausted counter and leaves what was edited before it. |
| `FactReview.KeyInjective` | crates/fact-kernel/src/candidate.rs:46-58 | Distinct scopes have distinct keys. |
| `FactRecords.PiecesExactly` | crates/fact-kernel/src/indexer.rs:118-124 | Splitting a text yields exactly its longest stretches without separators. |
| `FactRecords.TokensExactly` | crates/fact-kernel/src/indexer.rs:118-128 | The tokens are the pieces, trimmed and lower-cased, without the empty ones. |
| `FactRecords.SpacingIsForgotten` | crates/fact-kernel/src/service.rs:337-343 | However words are spaced, before, between and after, they are the words of the text, so statements that differ only in white space have one normal form. |
| `FactRecords.TokenExactly` | crates/fact-kernel/src/indexer.rs:118-128 | Under the kernel's analysis the tokens of a text are exactly its lower-cased longest alphanumeric stretches. |
| `FactIndex.PostAllExactly` | crates/fact-kernel/src/indexer.rs:42-50 | Posting an id under a list of tokens adds that id to exactly those tokens. |
| `FactIndex.IndexFactComplete` | crates/fact-kernel/src/indexer.rs:35-53 | Indexing keeps every stored fact posted under each of its tokens and its type, even when its id is indexed again. |
| `FactIndex.IndexFactExactly` | crates/fact-kernel/src/indexer.rs:35-53 | Postings are never removed, so an exact index stays exact if and only if the id is new or the new version covers every token and the type of the old. |
| `FactIndex.StaleStays` | crates/fact-kernel/src/indexer.rs:35-53 | Re-indexing an id without one of its old tokens or with another type leaves a posting that no fact justifies. |
| `FactIndex.IndexAllHolds` | crates/fact-kernel/src/indexer.rs:25-33 | After a list is indexed the index holds, for each id, the last listed version, and whatever it held before under other ids. |
| `FactIndex.RebuildAgrees` | crates/fact-kernel/src/indexer.rs:25-33 | A rebuilt index holds exactly the listed facts, completely and exactly posted. |
| `FactIndex.ThroughoutExactly` | crates/fact-kernel/src/indexer.rs:35-53 | An exact index stays exact at every one of a list of writes if and only if each is of a new id or covers the version it replaces. |
| `FactSearch.CompleteNeverMisses` | crates/fact-kernel/src/indexer.rs:61-72 | On any complete index a fact scores at least what its own tokens earn. |
| `FactSearch.StalePostingScores` | crates/fact-kernel/src/indexer.rs:35-72 | After an id is indexed again without one of its old tokens, that token still scores ten points for a fact that no longer contains it. |
| `FactSearch.ScoresAreDeserved` | crates/fact-kernel/src/indexer.rs:61-85 | On an exact index exactly the matching facts are scored: ten points per query token occurrence, or five for a substring match when no fact has a token of a non-blank query. |
| `FactSearch.TokenScoresExactly` | crates/fact-kernel/src/indexer.rs:61-73 | Under the kernel's analysis and on an exact index a query token scores a fact if and only if it is a lower-cased longest alphanumeric stretch of the statement or the type. |
| `FactSearch.SearchIsScan` | crates/fact-kernel/src/indexer.rs:61-104 | On an exact index search returns the best max(limit, 1) matches of a scan of every fact: by score, confidence and update time, the smaller id first among equals; nothing left out precedes anything returned. |
| `FactRanking.RelevanceExactly` | crates/fact-kernel/src/indexer.rs:61-73 | Ten points for each place of the query whose token is a token of the statement or of the type. |
| `FactRanking.DeservedExactly` | crates/fact-kernel/src/indexer.rs:61-85 | Where no fact matches a token, five points for facts whose lower-cased statement or type holds a query that is not blank. |
| `FactRanking.SearchRanks` | crates/fact-kernel/src/indexer.rs:61-104 | Scores never rise along the result; at one score confidence never rises, unassessed last; at one confidence the update time never rises; then ids ascend; no match left out belongs before one returned; and there are as many as the matches and the limit, at least one, allow. |
| `FactSearch.ByTypeIsScan` | crates/fact-kernel/src/indexer.rs:106-115 | On an exact index a type lists its first max(limit, 1) facts in id order. |
| `FactRanking.ByTypeLists` | crates/fact-kernel/src/indexer.rs:106-115 | A listing holds in ascending id order the first facts whose type is the given one up to outer space and case. |
| `FactIndexer.AddPoints` | crates/fact-kernel/src/indexer.rs:67-71 | The inner loop adds ten points to each posted id and to no other. |
| `FactIndexer.ScoreTokens` | crates/fact-kernel/src/indexer.rs:65-73 | The nested loops compute the token scores. |
| `FactIndexer.ScoreMentions` | crates/fact-kernel/src/indexer.rs:75-84 | The fallback loop scores exactly the facts that contain the query. |
| `FactIndexer.CollectHits` | crates/fact-kernel/src/indexer.rs:86-95 | The hits are collected in id order, dropping ids without a fact. |
| `FactIndexer.TakeFacts` | crates/fact-kernel/src/indexer.rs:111-114 | Stopping as soon as there are enough facts gives the first ones of the whole listing. |
| `FactIndexer.FactIndex.IndexFact` | crates/fact-kernel/src/indexer.rs:35-53 | The three maps are updated in place as specified. |
| `FactIndexer.FactIndex.Rebuild` | crates/fact-kernel/src/indexer.rs:25-33 | Clearing and re-indexing gives the rebuilt index. |
| `FactIndexer.FactIndex.Search` | crates/fact-kernel/src/indexer.rs:61-104 | The loops of search compute the specified ranked result. |
| `FactIndexer.FactIndex.ByType` | crates/fact-kernel/src/indexer.rs:106-115 | The listing by type is the specified one. |
| `FactReview.FirstExactly` | crates/fact-kernel/src/service.rs:300-323 | The fact named in a decision is the one with the smallest id among those in the way. |
| `FactReview.DecisionExactly` | crates/fact-kernel/src/service.rs:227-271 | Exactly when a candidate is held, rejected, contested or promoted, in terms of its evidence, its reality and the facts stored; relations name stored facts. |
| `FactReview.PromotedExactly` | crates/fact-kernel/src/service.rs:227-322 | A candidate is promoted if and only if it is admissible and its fact would clash with no stored fact. |
| `FactReview.SameWordsAreHeld` | crates/fact-kernel/src/service.rs:300-343 | A candidate with the same words as an active fact of its type and scope is held, however it is spaced. |
| `FactReview.DecisionReads` | crates/fact-kernel/src/service.rs:227-347 | A candidate is decided by the active facts of its type and scope: those with its words up to spacing and case hold it, any other contests it when the type begins with "matrix.", the relation names the one with the least id, and a promoted candidate becomes a fact field by field. |
| `FactReview.UpsertKeepsUniqueExactly` | crates/fact-kernel/src/service.rs:75-79 | A direct write keeps active facts unique in their place if and only if it clashes with no fact under another id. |
| `FactPromotion.PlanExactly` | crates/fact-kernel/src/bridge.rs:44-92 | A fact comes out of promotion exactly when the candidate qualifies; it is grounded, confident and in no scope. |
| `FactPromotion.PlanReads` | crates/fact-kernel/src/service.rs:104-225 | The verdict by permission, evidence and a confidence of 7000, and every field of the fact that memories, matrix facts and policy lessons give. |
| `FactPromotion.PromotedWithoutFact` | crates/fact-kernel/src/service.rs:104-116 | The verdict to promote comes without a fact exactly for a permitted, evidenced and confident candidate that was not observed. |
| `FactKernel.StartAgrees` | crates/fact-kernel/src/service.rs:59-64 | A service over any store starts with a complete and exact index of that store. |
| `FactKernel.RunKeepsIndexed` | crates/fact-kernel/src/service.rs:75-130 | Over every run of writes, promotions and reviews the index holds exactly the stored facts and is complete. |
| `FactKernel.RecallMissesNothing` | crates/fact-kernel/src/service.rs:81-84 | In every reachable state recall scores every fact that contains a token of the query, with at least what it earns. |
| `FactKernel.RunIndexes` | crates/fact-kernel/src/service.rs:75-130 | The index after a run is the index before it with the written facts indexed one after another. |
| `FactKernel.RecallIsScan` | crates/fact-kernel/src/service.rs:75-84 | Over a run the index stays exact at every write if and only if every write is of a new id or covers what it replaces; then recall is the scan, ranked as in FactRanking.SearchRanks. |
| `FactKernel.RunKeepsSound` | crates/fact-kernel/src/service.rs:91-322 | Over every run of reviews and promotions no two active scoped facts share type, scope and normalised statement, each matrix type has at most one active fact per scope, every fact is grounded in evidence or policy, and unscoped facts are confident. |
| `FactKernel.SoundMeans` | crates/fact-kernel/src/service.rs:227-347 | In the stores that every run keeps, two active facts of one type and scope differ in statement and there are no two of a type that begins with "matrix."; what lacks evidence is a policy lesson at 7000 or more; what lacks a scope is at 7000 or more. |
| `FactKernel.OneDecisionEach` | crates/fact-kernel/src/service.rs:118-130 | A batch gets one decision per candidate, in candidate order. |
| `FactKernel.PromotesNothingExactly` | crates/fact-kernel/src/service.rs:118-130 | A review promotes nothing if and only if every candidate is inadmissible or clashes with a stored fact beforehand; then it changes nothing. |
| `FactKernel.RepeatedReviewExactly` | crates/fact-kernel/src/service.rs:118-130 | Reviewing a batch a second time promotes nothing if and only if the first review left every candidate inadmissible or in a clash; then the second changes nothing. |
| `FactKernel.SharedIdPromotesAgain` | crates/fact-kernel/src/service.rs:261-271 | Two admissible candidates under one id that do not clash overwrite each other, and the first is promoted again by a second review. |
| `FactKernel.SharedIdWitness` | crates/fact-kernel/src/service.rs:261-271 | Such a batch exists: two notes under one id. |
| `FactKernel.ReviewIsIdempotent` | crates/fact-kernel/src/service.rs:118-130 | In particular, reviewing candidates with distinct, new ids a second time promotes nothing and changes nothing. |
| `FactKernel.PromotionsKeepEarned` | crates/fact-kernel/src/service.rs:91-225 | Every fact stored by a run of promotions is observed with evidence or an inferred policy lesson, with confidence at least 7000. |
| `FactKernel.EarnedNeverLackConfidence` | crates/fact-kernel/src/service.rs:133-150 | After promotions alone the health report never complains of confidence. |
| `FactKernel.OnlyReviewedLackConfidence` | crates/fact-kernel/src/service.rs:133-150 | In a sound store only scoped facts, which come from review, can be reported for their confidence. |
| `FactService.DisputedExactly` | crates/fact-kernel/src/service.rs:325-335 | A conflict entry is made exactly for a contested decision, and it names the first rival fact. |
| `FactService.OneDisputeEach` | crates/fact-kernel/src/service.rs:118-130 | The conflict entries of a reviewed batch are one per contested candidate, in batch order. |
| `FactService.ListsShareOut` | crates/fact-kernel/src/review.rs:112-120 | The promoted, held and rejected lists together are the decisions, each once. |
| `FactService.FactReviewReceipt.PushDecision` | crates/fact-kernel/src/review.rs:112-120 | A receipt keeps each list equal to the decisions of its kinds in order, contested ones being held, and one conflict entry per disputing decision. |
| `FactService.FactKernelService.UpsertFact` | crates/fact-kernel/src/service.rs:75-79 | The store and the index are updated together. |
| `FactService.FactKernelService.PromoteCandidate` | crates/fact-kernel/src/service.rs:91-98 | Promotion returns the plan and stores its fact, if there is one. |
| `FactService.FactKernelService.ReviewSingle` | crates/fact-kernel/src/service.rs:227-271 | One candidate is decided against the store as it is, and stored if promoted. |
| `FactService.FactKernelService.ReviewCandidates` | crates/fact-kernel/src/service.rs:118-130 | The loop decides each candidate against the facts its predecessors left and returns a receipt of exactly those decisions. |
| `FactService.FactKernelService.EvaluateHealth` | crates/fact-kernel/src/service.rs:133-165 | The report on the stored facts, in id order. |
| `FactHealth.IssuesExactly` | crates/fact-kernel/src/service.rs:137-161 | An issue about confidence or evidence is listed if and only if it applies to some fact. |
| `FactHealth.GroupBy` | crates/fact-kernel/src/service.rs:350-362 | Grouping keeps, under each key, the items with that key in their order. |
| `FactHealth.WhereCounts` | crates/fact-kernel/src/service.rs:350-376 | A group holds each of its items as often as it was listed, and nothing else. |
| `FactHealth.FewValues` | crates/fact-kernel/src/service.rs:377-379 | There is at most one value in a group exactly when all of its facts claim the same one. |
| `FactHealth.DetectContraries` | crates/fact-kernel/src/service.rs:349-405 | A fact is flagged, as often as it is listed, if and only if another matrix fact parses to the same entity and predicate with another value. |
| `FactHealth.Evaluate` | crates/fact-kernel/src/service.rs:133-165 | The loops compute the report: what each fact lacks in listing order, then one entry for every contradicted matrix fact and no other. |
| `FactHealth.ClaimExactly` | crates/fact-kernel/src/service.rs:395-405 | A matrix fact claims the trimmed text before its first space as entity, up to the second as attribute and the rest as value, if none is empty. |
| `FactHealth.ReportExactly` | crates/fact-kernel/src/service.rs:133-405 | A report names an id for unknown confidence, confidence below 5000, missing evidence or a disputed value exactly when a listed fact with that id is so. |
| `FactClaims.PromotedClaimExactly` | crates/fact-kernel/src/service.rs:189-194 | The health check reads the claim of a promoted matrix fact back if and only if no part is empty or has outer white space and neither entity nor attribute holds a space. |
| `FactClaims.TwoWordsMisread` | crates/fact-kernel/src/service.rs:395-405 | A promoted matrix fact about "New York" is read as a claim about the attribute "York" of "New". |
| `LedgerSnapshot.Validate` | crates/fact-kernel/src/ledger.rs:189-206 | A snapshot is refused for the first collection in which an id repeats, naming the first id that does. |
| `LedgerSnapshot.DigestForgetsOrder` | crates/fact-kernel/src/ledger.rs:208-226 | Reordering the records of any collection changes neither the digest nor the collection for which it is refused. |
| `LedgerSnapshot.DigestTellsRecords` | crates/fact-kernel/src/ledger.rs:208-226 | Where the hash does not collide, equal digests mean the same records. |
| `LedgerSnapshot.DigestReads` | crates/fact-kernel/src/ledger.rs:189-226 | A snapshot has a digest exactly when no id repeats in a collection; it is that of the same records in strictly ascending id order. |
| `CanonicalSets.SortDedup` | crates/app-protocol/src/invocation.rs:561-566 | Sorting and dropping equal neighbours lists the distinct values in strictly ascending order. |
| `CanonicalSets.RepeatExactly` | crates/app-protocol/src/identity.rs:107-121 | The uniqueness check passes if and only if no value occurs twice. |
| `CanonicalSets.CheckUnique` | crates/app-protocol/src/identity.rs:107-121 | The loop with a set of seen values reports the first value that was seen before. |
| `CanonicalSets.CanonicalExactly` | crates/app-protocol/src/identity.rs:123-146 | A canonical set passes if and only if it is short enough, bounded and strictly ascending. |
| `CanonicalSets.CheckCanonical` | crates/app-protocol/src/identity.rs:123-146 | The loops report the first problem in the order the checks are made. |
| `CanonicalSets.SearchExactly` | crates/app-protocol/src/invocation.rs:531-549 | On a strictly ascending list binary search finds a key if and only if it is there, at its only place. |
| `CanonicalSets.HoldsExactly` | crates/app-protocol/src/manifest.rs:79-89 | Testing a canonical list by binary search is membership. |
| `Operations.CapabilitiesExactly` | crates/app-protocol/src/invocation.rs:69-86 | Which capability lists an operation may require. |
| `Operations.EdgeFoundExactly` | crates/app-protocol/src/invocation.rs:531-549 | In a valid manifest a pair of operations has at most one edge, and binary search over the pairs finds it if there is one. |
| `Operations.HandshakeBacksEdges` | crates/app-protocol/src/manifest.rs:825-895 | After a validated handshake every signed edge starts at an operation of the catalogue that requires every capability of the edge. |
| `OperationForms.DescriptorExactly` | crates/app-protocol/src/invocation.rs:70-156 | A descriptor is accepted if and only if it has the form: bounded names, canonical capabilities, digests, positive limits in order, and the idempotency, streaming and read-only flags of its kind. |
| `OperationForms.EdgeExactly` | crates/app-protocol/src/manifest.rs:279-330 | An edge is accepted if and only if it leads from an operation outside core to one inside, with digests, canonical capabilities and the streaming flag of its kind. |
| `OperationForms.ManifestExactly` | crates/app-protocol/src/manifest.rs:48-128 | A manifest is accepted if and only if its id, capabilities and catalogue digest are well-formed and its own, and its edges are strictly ascending, valid, its own and ask only for declared capabilities. |
| `OperationForms.HandshakeExactly` | crates/app-protocol/src/manifest.rs:825-895 | A handshake is accepted if and only if it names the manifest's APP, version and catalogue, its operations are valid, ascending, the APP's own and within the declared capabilities, and every edge starts at one that asks for what the edge asks for. |
| `CoreBridge.AcceptedExactly` | crates/app-protocol/src/invocation.rs:219-319 | Accepted if and only if the envelope and the descriptor have their forms, operation and digest agree, the delegation, tenant, workspace and idempotency key are those the operation asks for, every capability is held, and neither deadline nor grant has passed. |
| `CoreBridge.EnvelopeExactly` | crates/app-protocol/src/invocation.rs:337-374 | An envelope is accepted by itself if and only if it has the form: bounded ids, a deadline, one to four hops, distinct authorities of the three kinds, a digest and a well-formed principal. |
| `CoreBridge.AuthorityExactly` | crates/app-protocol/src/invocation.rs:572-585 | An authority is "core", "app" or "surface", a colon and an identity that is not blank, within 192 bytes. |
| `CoreBridge.MergedExactly` | crates/app-protocol/src/invocation.rs:561-568 | The merged descriptor is well-formed if and only if Core and edge capabilities together number at most 64. |
| `CoreBridge.BridgeAcceptsExactly` | crates/app-protocol/src/invocation.rs:501-569 | Accepted if and only if call, envelope, manifest and descriptor have their forms, the origin is the APP's id, a dot and more, "app:" and the APP's id is in the call chain, and the one signed edge of this pair of operations has the descriptor's digests, kind and streaming and asks with it for at most 64 capabilities, all held, in time. |
| `CoreBridge.OverLimitRefused` | crates/app-protocol/src/invocation.rs:561-568 | Whoever calls, an edge that together with the Core operation asks for more than 64 capabilities is never crossed. |
| `BridgeLimit.HolderIsRefused` | crates/app-protocol/src/invocation.rs:501-569 | A call that is well-formed, announced and signed, whose Core operation alone would be allowed and whose principal holds all 65 capabilities, and which is refused. |
| `CoreBridge.ValidateAtForManifest` | crates/app-protocol/src/invocation.rs:501-569 | Extending, sorting and deduplicating a copy of the descriptor gives the specified verdict. |
| `CoreBridge.OriginCoversEdge` | crates/app-protocol/src/manifest.rs:860-889 | With a validated handshake, passing the originating APP operation already means holding the edge's APP capabilities. |
| `CoreBridge.BridgeAfterOrigin` | crates/app-protocol/src/invocation.rs:501-569 | So a principal that passed the originating operation and may use the Core operation alone is accepted over the edge if and only if the merged capabilities stay within 64. |
| `CoreBridge.CallChain.AppendAuthority` | crates/app-protocol/src/invocation.rs:321-334 | An authority is appended if and only if it is well-formed, not yet passed and within the hop limit; the chain stays free of cycles, and a refusal changes nothing. |
| `CoreCatalog.Pigeonhole` | crates/app-protocol/src/catalog.rs:70-91 | Equal length and inclusion leave no room for a missing operation. |
| `CoreCatalog.MissingIsUnreachable` | crates/app-protocol/src/catalog.rs:105-119 | No catalogue is ever refused for a missing operation. |
| `CoreCatalog.AcceptedHoldsExactly` | crates/app-protocol/src/catalog.rs:51-138 | An accepted catalogue has exactly one descriptor for each Core operation that an edge names, no other, and each serves its edges. |
| `CoreCatalog.AcceptedExactly` | crates/app-protocol/src/catalog.rs:51-138 | Accepted if and only if catalogue and manifest have their forms, APP and generation agree, and the operations are exactly those the edges lead to, ask for no capability of the APP and carry the contract of every edge. |
| `CoreCatalog.SharedEdgesAgree` | crates/app-protocol/src/catalog.rs:105-138 | Edges that share a Core operation agree on digests, kind and streaming. |
| `NormalForms.SortShowsTwins` | crates/app-protocol/src/surface.rs:757-804 | A sorted copy has equal neighbours exactly when two places of the original share a key. |
| `NormalForms.SortedFormForgetsOrder` | crates/app-protocol/src/surface.rs:792-804 | Lists with the same elements have the same sorted form, or both have twins. |
| `ExecutionSummary.NormalFormForgetsOrder` | crates/app-protocol/src/surface.rs:755-807 | Reordering any of the four collections changes neither the normal form nor the failure. |
| `ExecutionSummary.NormalFormIsFixed` | crates/app-protocol/src/surface.rs:755-807 | A normal form is a reordering of its summary and is its own normal form. |
| `ExecutionSummary.ValidExactly` | crates/app-protocol/src/surface.rs:810-822 | Validation accepts exactly the summaries that are their own normal form. |
| `ExecutionSummary.ValidReads` | crates/app-protocol/src/surface.rs:810-822 | Validation accepts exactly the summaries of the form. |
| `ExecutionSummary.NormalFormReads` | crates/app-protocol/src/surface.rs:728-807 | The normal form of a summary is the one reordering of it with bounded fields, references strictly ascending by type and id, and evidence, metrics and counter names strictly ascending. |
| `ExecutionSummary.NormalFormExactly` | crates/app-protocol/src/surface.rs:728-807 | A summary has a normal form if and only if its head is good and each collection, in any order, is within its limit, well-formed and free of repeated identities. |
| `Encodings.Utf8Injective` | crates/app-protocol/src/transport.rs:330-335 | Different texts have different bytes. |
| `Encodings.HexComponent` | crates/app-protocol/src/surface.rs:972-980 | The loop writes two lower-case hex digits for each byte. |
| `Encodings.HexInjective` | crates/app-protocol/src/surface.rs:972-980 | Different bytes have different hex. |
| `Encodings.HexReads` | crates/app-protocol/src/surface.rs:972-980 | Two lower-case hexadecimal digits per byte, the high half first. |
| `Encodings.EventIdInjective` | crates/app-protocol/src/surface.rs:926-933 | Equal event ids come from the same schema version, producer and summary. |
| `Encodings.FieldSame` | crates/app-protocol/src/transport.rs:339-344 | A length-prefixed field can be told from whatever follows it. |
| `Encodings.FrameFields` | crates/app-protocol/src/transport.rs:330-344 | Appending the fields one by one to a buffer gives the specified bytes, or the error of a field that is too long. |
| `Encodings.CanonicalChannelBinding` | crates/app-protocol/src/transport.rs:302-337 | The binding or its first error, in the order of the checks. |
| `Encodings.BindingInjective` | crates/app-protocol/src/transport.rs:302-344 | Equal bindings come from the same purpose, APP, generation, process and nonce. |
| `Encodings.FramedReadsBack` | crates/app-protocol/src/transport.rs:330-344 | A reader of lengths and bytes reads framed fields back in order. |
| `Encodings.BindingReads` | crates/app-protocol/src/transport.rs:302-344 | A binding is given exactly for a valid APP id and generation, a process id above zero and a nonce of 1 to 256 bytes, and reads back as domain, purpose, APP, generation, process and nonce. |
| `Encodings.FieldsAlwaysFit` | crates/app-protocol/src/transport.rs:339-340 | No binding ever fails for a field that is too long. |
| `LikeSearch.PassesEscapeEach` | crates/connector-postgres/src/lib.rs:187-193 | The three replacement passes amount to one backslash before every special character. |
| `LikeSearch.PatternMeansContains` | crates/connector-postgres/src/lib.rs:187-208 | LIKE with the pattern of a query matches exactly the texts that contain the query, whatever special characters it holds. |
| `LikeSearch.ILikeMeansMentions` | crates/connector-postgres/src/lib.rs:195-208 | So does ILIKE up to case, for every folding that neither changes nor produces a special character. |
| `LikeSearch.SearchFindsMentions` | crates/connector-postgres/src/lib.rs:178-214 | For every query, blank ones included, search lists the most recently seen resources that mention the trimmed query in one of four columns. |
| `LikeSearch.SearchListsMentions` | crates/connector-postgres/src/lib.rs:150-214 | A search lists the rows that mention the trimmed query in reference, title, type or provider, most recently seen first and then by reference, as many as there are up to the limit, and leaves out none that belongs before one it lists. |
| `CsvSource.ParseCsvLine` | crates/connector/src/source.rs:421-442 | The character loop computes the specified fields. |
| `CsvSource.LineReadsBack` | crates/connector/src/source.rs:421-442 | Parsing recovers the fields of every line written after section 2 of RFC 4180, quoted or not, up to their outer white space. |
| `CsvSource.LineRoundTripExactly` | crates/connector/src/source.rs:421-442 | They come back as they were if and only if no field has outer white space. |
| `CsvSource.PaddedFieldIsTrimmed` | crates/connector/src/source.rs:421-442 | A padded field loses its padding even in quotes. |
| `CsvSource.FileRoundTripExactly` | crates/connector/src/source.rs:255-264 | A file comes back line by line if and only if no line holds a line feed, none ends in a carriage return that the line break lacks, and the last is not both empty and unterminated. |
| `CsvPages.BuildRow` | crates/connector/src/source.rs:272-281 | The loop over the headers gives each its value, the last one winning. |
| `CsvPages.Limit` | crates/connector/src/source.rs:33-37 | 100 where no limit is asked for, and otherwise what is asked for within 1 to 1000. |
| `CsvPages.RowReads` | crates/connector/src/source.rs:272-281 | A row has exactly the headers, and under each the text in its last place, or nothing where the line is too short. |
| `CsvPages.CollectRows` | crates/connector/src/source.rs:266-285 | One pass over the lines collects exactly the window of non-blank rows and counts them all. |
| `CsvPages.ReadCsvBatch` | crates/connector/src/source.rs:252-294 | A page is the specified batch for every content, limit and offset. |
| `CsvPages.TruncatedExactly` | crates/connector/src/source.rs:342-371 | A page is truncated if and only if it names a next offset, and then it was full and rows remain. |
| `CsvPages.FollowYieldsAll` | crates/connector/src/source.rs:342-371 | Following the cursor from the start ends and yields every row once, in order, whatever limit is asked for at each page. |
| `CsvPages.TableReadsBack` | crates/connector/src/source.rs:252-294 | Reading recovers every written table whose lines are intact, up to outer white space and blank records. |
| `CsvPages.FollowReadsBack` | crates/connector/src/source.rs:252-294 | Following the cursor recovers it too, whatever the page limits. |
| `CsvPages.FollowRecoversTable` | crates/connector/src/source.rs:252-294 | A table whose fields have no line feed and no outer white space comes back as it was written. |
| `CsvPages.RowHoldsFields` | crates/connector/src/source.rs:272-281 | Under distinct headers a row holds every field under its own header and nothing else. |
| `Bulkhead.AcquireExactly` | crates/connector/src/lib.rs:730-755 | A guard is granted if and only if a place is free and it is not the case that enough failures follow the last success with the last of them within the cooldown. |
| `Bulkhead.FailReflects` | crates/connector/src/lib.rs:768-779 | The saturating failure count still decides the cooldown as the true count would. |
| `Bulkhead.ReleaseReflects` | crates/connector/src/lib.rs:790-799 | Dropping a live guard never finds the counter at zero. |
| `Bulkhead.RunReflects` | crates/connector/src/lib.rs:710-811 | After any calls in any order, every provider's state is what its history says: as many in flight as live guards, never more than the maximum, and a cooldown exactly after enough failures in a row. |
| `Bulkhead.Configured` | crates/connector/src/lib.rs:712-723 | Given limits are used as they are, and zero becomes one. |
| `Bulkhead.ConnectorBulkhead.ServiceGate` | crates/connector/src/lib.rs:725-728 | Four at a time, three failures, thirty seconds. |
| `Bulkhead.ConnectorBulkhead.TryAcquire` | crates/connector/src/lib.rs:730-755 | Success and both refusals are decided by the history alone. |
| `Bulkhead.ConnectorBulkhead.RecordSuccess` | crates/connector/src/lib.rs:758-766 | A success clears failures and cooldown of its provider only. |
| `Bulkhead.ConnectorBulkhead.RecordFailure` | crates/connector/src/lib.rs:768-779 | A failure extends the history, and the state keeps reflecting it. |
| `Bulkhead.ConnectorBulkhead.InFlight` | crates/connector/src/lib.rs:781-789 | The number reported is that of live guards, at most the maximum. |
| `Bulkhead.ConnectorBulkhead.Drop` | crates/connector/src/lib.rs:790-811 | Dropping a guard returns one place. |

## Left out

- Sockets, file formats, JSON, migrations, connection pooling, signatures and the command-line programs.
- The equivalence of the two recall orderings: they differ, since unknown confidence ranks below zero in memory and ties with zero in SQL.
- Evidence packets, growth events and promotion records of a growth batch: they are further rows of the same transaction.
- Authorisation profiles of a manifest, presentation, integrity and sandbox checks: one verdict in `Manifest.restValid`.
- The text of error messages and which field an error names: an error is a constructor.
- JSONL batches, the schema inferred for a CSV table, and table names taken from paths.
- Surface capabilities of authenticated principals, decision leases, and the older on-disk credential formats.
- Provenance, support state and evidence completeness of facts, which no modelled decision reads.
- PostgresTransactions.UpdatePreservesInv: rows keep the fact id inside their payload, as every statement of the program writes them; a rename that left the payload alone would escape the trigger.
- PostgresFactLedger.Ledger.UpsertFactIn: a row locked by another transaction makes the statement fail; waiting for the lock and then continuing is not modelled.
- PostgresTransactions.RunPreservesInv: revisions and transaction ids are unbounded, so the overflow of a 64-bit revision is not modelled.
- EphemeralLedger.PaginationIsFrozen: the fence is a number, or unreadable when its text does not parse; the text itself is not modelled.
- FactSearch.SearchIsScan: scores are unbounded, so a query of more than four hundred million tokens, which would overflow 32 bits, is not modelled.
- FactHealth.DetectContraries: says which facts are flagged and how often, not in which order or with what detail text.
- LikeSearch.ILikeMeansMentions: case folding works character by character; foldings that change the length of a text are not modelled.
- LikeSearch.SearchListsMentions: gives the order and the limit of the rows; account, permissions, digest and index state of a resource are not modelled.
- FactService.FactKernelService.EvaluateHealth: gives the conflict entries without their order, as FactHealth.DetectContraries does.
- FactHealth.Evaluate: likewise leaves the order of the conflict entries open.
- PostgresFactLedger.BatchIsAtomic: a locked row makes the batch fail; waiting for it is not modelled.
- PostgresFactLedger.Ledger.UpsertEach: likewise stops at a locked row instead of waiting.
- PostgresFactLedger.Ledger.PersistFacts: likewise, and locks on the revision rows themselves are not modelled.
- Bulkhead.RunReflects: each method is one step, as the mutex makes it; poisoning of the mutex and overflow of the monotonic clock are not modelled.
- CoreBridge.BridgeAcceptsExactly: payloads and execution contexts are reduced to one verdict, `executionValid`.

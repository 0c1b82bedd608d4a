# Verification of the attestation service

A model, in Dafny, of the service's chain from events to offline verifiers, of its two
persistent state machines, and of the codecs around them:

- the Merkle engine: in-place level loops against the split tree of section 2.1 of RFC 6962,
  completeness, soundness and uniqueness of proofs, injectivity of the committed root, and the
  legacy scheme (`Trees`, `Heights`, `Levels`, `Completion`, `Merkle`, `Binding`, `Compatibility`);
- the append-only log of leaves and roots and the choice of the root that a leaf is proved
  under (`LeafLog`, `Selection`);
- the anchor journal as transactions on values, the broadcast protocol as a transition system
  with crashes and concurrent recordings, and what holds over all its runs (`Journal`,
  `Protocol`, `ProtocolRuns`), which notes its transactions spend (`ProtocolNotes`), what a restart
  recovers (`Recovery`), and the rounds of confirmations (`Confirmations`, `ConfirmationRuns`);
- the payment ledger, its runs, and confluence (`Sums`, `Payments`, `PaymentRuns`), the block scan
  that feeds it, its loop, and a scan that is stopped and resumed (`Scanner`, `ScanRuns`, `Rescans`);
- the database class whose methods carry these transactions out in place (`Database`);
- the three offline verifiers and their agreement, from database row to accepted bundle and
  from accepted bundle back to an event in the log (`Hex`, `Verifiers`, `EventProofs`);
- leaf preimages, the fingerprint encoding, memos, the TVLV container of the ZIP 302 draft
  (`Fields`, `Memo`, `Fingerprint`, `StructuredMemo`, `Tvlv`, `TvlvFrames`);
- the wallet's positions, notes and values over runs, and when transactions are fed out of turn
  (`Wallet`, `WalletRuns`, `WalletFeeds`), and the BLAKE2b block loop of section 3.3 of RFC 7693
  (`Blake2b`).

`dafny verify dfyconfig.toml` checks the whole project.

## How it is modelled

The hash is an arbitrary function from a personalization and an input to 32 bytes. Completeness
asks nothing of it. Soundness and injectivity ask it to be injective on the inputs that were
hashed (`Binding.InjectiveOn` over a finite set that each statement names), which a real hash
can satisfy; the separation of leaves from nodes is then derived from the personalizations. Over
runs of the anchor protocol these are the inputs hashed for the roots of the log
(`ProtocolRuns.IsCleanRun`); that the log is well formed needs no such assumption.

What is hashed or written is stated twice: by the functions that the loops compute, and byte by byte
(`Merkle.RootsAreHashed`, `Memo.Layout`, `Fingerprint.CaseBytes`, `TvlvFrames.IsMemoOf`). What a
transaction leaves in the tables is stated by the function that it is proved against, and member by
member of the rows (`Journal.IsFinalized`, `Journal.IsReconciled`, `Payments.IsOwed`).

A transaction on the database is a function from tables to new tables, or to nothing when it
fails. The class `Database.Db` has the tables as fields, does the same work step by step, and
is proved to leave exactly the tables that the function gives. The invariants are proved of the
functions, over all runs from an empty database. The uniqueness of leaf hashes and of payments
comes from migrations/001_init.sql, the keys of the journal and the unique index on the
transaction ids of roots from migrations/004_anchor_broadcasts.sql.

In the anchor protocol a run is any sequence of events: steps of the anchor loop, errors and
restarts between any two of them, leaf inserts, recordings by an administrator or on the
command line, confirmations, and what the wallet sees on the chain. Reading the root and building
the transaction are two steps, with anything in between. The answers of the node and
the output of the transaction builder are part of the events.

## Where the code does less than promised

Each of these is stated as a concrete case together with the exact condition.

- Finalizing a prepared anchor fails when another root row already carries its transaction id,
  since the index on transaction ids is unique. That takes a builder output equal to an id that
  was recorded before: `ProtocolRuns.ReusedIdIsStuck`, and for good, `ProtocolRuns.ReusedIdStaysStuck`.
  It fails in no other case (`ProtocolRuns.FinalizationFailsOnlyOnReuse`), and in none when the ids
  journaled are new (`ProtocolRuns.FinalizationSucceeds`).
- The wallet is in memory only, and a restart seeds it 1500 blocks below the tip
  (src/scanner.rs:251-265). A prepared anchor whose note is older is stranded: the restarted process
  sends it again, finds no note to mark as spent (src/wallet.rs:902-912) and gives up, and while the
  row is prepared no other anchor is journaled. The case is `Recovery.OldNoteStrandsAnchor`. A restart
  records the row exactly when its wallet tracks the journaled position
  (`ProtocolRuns.RecoveryCompletesIff`), that is, when the note lies behind the frontier in what the
  recovery scan fed (`Recovery.RestartRecoversIff`). Otherwise the row stays prepared
  (`Recovery.StrandedStays`), for good as the chain grows (`Recovery.GrowingChainStrands`).
- The wallet does not recognize a note that it is fed twice (src/wallet.rs:384-400), and then spends
  it twice: `ProtocolNotes.RepeatedNoteIsSpentTwice`. Two transactions of one process spend the same
  note only if the wallet tracked it at two positions (`ProtocolNotes.NoNoteIsSpentTwice`).
- The command line takes any height for a recorded anchor (`Journal.UncheckedHeightIsTaken`,
  `Confirmations.ClaimedHeightRefuses`). Its confirmation then fails, in this case only
  (`ProtocolRuns.ConfirmationFailsOnlyOnHeight`), and for good (`ProtocolRuns.WrongHeightStays`). The
  error also ends the round that it occurs in: `Confirmations.FirstOfTwoRefuses`. A round reaches
  exactly the rows before the first one whose recorded height is not the node's
  (`Confirmations.RoundReaches`); that row is not put off, and while the node answers for it what
  stands behind it stays unconfirmed in every later round (`ConfirmationRuns.StuckRowBlocks`).
- When the lifecycle leaf of an invoice cannot be made, the payment that would complete it is
  refused, so that the amount received depends on the order: `PaymentRuns.RefusalDependsOnOrder`.
  `PaymentRuns.Confluence` covers both cases, and `PaymentRuns.ConfirmSucceedsIff` says when a
  payment is refused.
- A scan that stops and is resumed looks only for the invoices that are still active:
  `Rescans.StoppedScanDropsPayment` loses a payment of 3 to an invoice of 5 that the first part
  completed. Invoices also expire between two scans, after an error too (src/scanner.rs:36-49):
  `Rescans.StoppedScanLetsInvoiceExpire` loses the payment of an invoice that one scan would have
  recorded as paid. It leaves what one complete scan leaves exactly when no payment that is still to
  be recorded is for an invoice that was active at the start and no longer is:
  `Rescans.StoppedScanAgreesIff`.
- A transaction that the node does not return is passed over and its block counts as scanned:
  `Scanner.UnfetchedPaymentIsMissed`. What a scan records is all there is exactly when no such transaction pays a watched invoice:
  `Scanner.BlockIsCompleteIff`, `Scanner.ScanIsCompleteIff`.
- While no invoice is active the scan moves its cursor without feeding the wallet
  (src/scanner.rs:75-81), a transaction that is not returned is left out of its block
  (src/scanner.rs:303-307), and the recovery scan may feed what the scan feeds too
  (src/main.rs:97-124): `WalletFeeds.SkippedTransactionMisplaces`, `WalletFeeds.RepeatedBlockMisplaces`.
  A note is at its chain position exactly when as many actions were fed before its transaction as
  the chain has there (`WalletFeeds.NoteIsAtItsPlaceIff`), and the tree is the chain's exactly when
  every transaction with actions was fed once and in order (`WalletFeeds.TreeIsChainIff`).
- `decode_tvlv` adds a length to a position without a check, and panics exactly when the parse
  reaches a length that ends beyond 64 bits: `Tvlv.OverflowExample`, `Tvlv.DecodePanicsIff`. It
  takes six bytes of 0xFF in a row (`Tvlv.NoPanicWithoutSixOnes`).
- It also cuts types to 16 and versions to 8 bits: `Tvlv.TruncationExample`, and exactly when what
  was read is what would be written, `Tvlv.DecodedIsFrameIff`.
- `scripts/check_compatibility.py` pairs an odd node with itself before it binds the count, and
  differs from `compute_root` on three leaves: `Compatibility.ThreeLeavesDisagree`. They agree exactly
  on powers of two: `Compatibility.CheckerAgreesIff`.
- `StructuredMemo::decode` reads spellings that `encode` never writes, as the legacy prefix:
  `StructuredMemo.LegacyPrefixIsRead`. Which ones it writes: `StructuredMemo.ReadIsWrittenIff`.
- An anchor height that does not fit in 32 bits is accepted by the browser widget only:
  `Verifiers.OnlyWidgetAcceptsHighBundle`. At other heights it accepts what the audit tool accepts, but
  for bundles of the historical version 1.0.0 and counts above 2^53 - 1:
  `Verifiers.WidgetAgreesWithAudit`.

## Model

| member | source | states |
|---|---|---|
| Trees.PathWalksToRoot | src/merkle.rs:118-157 | the audit path of every position walks to the root, for every node function |
| Trees.ProofIsAPath | verify_proof.py:207-224 | any value and proof that walk to a root are an entry of the list and exactly its path |
| Trees.SameLengthRootInjective | src/merkle.rs:58-80 | lists of one length with the same root are equal |
| Trees.RootInjective | src/merkle.rs:58-80 | when no node is a leaf, the raw root determines the list whatever its length |
| Heights.SplitPointIsPow2 | src/merkle.rs:58-80 | the tree splits at the only power of two k with k < n <= 2k |
| Heights.PathLength | src/merkle.rs:118-157 | a path is at most as long as the tree is high, and exactly as long in a full tree |
| Levels.CarryUpKeepsRoot | src/merkle.rs:64-77 | one pass of the level loop keeps the root of the split tree |
| Levels.CarryUpPath | src/merkle.rs:127-154 | one pass of the proof loop records the first step of the path and leaves the rest for the level above |
| Completion.ExpandDupUp | src/merkle.rs:88-97 | pairing an odd node with itself is carrying up in the list completed to a power of two |
| Merkle.ComputeRawTreeRoot | src/merkle.rs:58-80 | the level loop computes the root of the split tree, or zeros for no leaves |
| Merkle.ComputeRoot | src/merkle.rs:48-56 | the committed root of the split tree and the leaf count |
| Merkle.ComputeLegacyRoot | src/merkle.rs:82-99 | the legacy loop computes the split-tree root of the completed list |
| Merkle.RootsAreHashed | src/merkle.rs:101-116 | what is hashed from the leaves up: two subtrees in order, and a version byte, the count in eight bytes and the raw root, each under its personalization |
| Merkle.CommitInputIs | src/merkle.rs:101-106 | the 41 bytes of the committed root, one by one |
| Merkle.GenerateProof | src/merkle.rs:118-157 | the proof loop computes the audit path; an index out of range gives none |
| Merkle.GenerateLegacyProof | src/merkle.rs:159-201 | the legacy proof loop computes the audit path in the completed list |
| Binding.GeneratedProofVerifies | src/merkle.rs:118-157 | every generated proof walks to the raw root and, through the count, to the committed root |
| Binding.GeneratedLegacyProofVerifies | src/merkle.rs:159-201 | every generated legacy proof walks to the legacy root |
| Binding.WalkIsHashed | verify_proof.py:207-224 | a left sibling is hashed before the value so far, a right one after it |
| Binding.GeneratedProofIsAdmissible | src/merkle.rs:118-157 | a generated proof hashes nothing but what was hashed for the log, so that soundness applies to it |
| Binding.ProofLengths | src/merkle.rs:118-201 | at most ceil(log2 n) steps, and exactly as many in a legacy proof |
| Binding.AcceptedProofIsGenerated | src/merkle.rs:101-157 | a leaf, proof and count that reach the committed root of a log are a leaf of the log, its generated proof, and the size of the log |
| Binding.RawProofIsGenerated | verify_proof.py:207-224 | the same for raw roots, with only the hashed inputs free of collisions |
| Binding.ComputedRootInjective | src/merkle.rs:48-56 | the committed root determines the list of leaves |
| Binding.LegacyRootRepeatsLast | src/merkle.rs:82-99 | an odd list and the list with its last leaf repeated share their legacy root |
| Binding.LegacyRootsEqualIff | src/merkle.rs:82-99 | two lists share a legacy root exactly when their completions are the same |
| Binding.LegacyProofBindsMembership | src/merkle.rs:159-201 | whatever walks to a legacy root is still a leaf of the list |
| Binding.RawEqualsLegacyIff | src/merkle.rs:58-99 | current and legacy raw roots agree exactly on power-of-two lengths |
| Compatibility.CountBoundMerkleRoot | scripts/check_compatibility.py:24-41 | the checker's loop commits to the legacy root, and refuses an empty list |
| Compatibility.CheckerAgreesIff | scripts/check_compatibility.py:24-41 | the checker and the program compute the same root exactly on power-of-two lengths |
| Compatibility.ThreeLeavesDisagree | scripts/check_compatibility.py:24-41 | on three leaves they differ |
| Compatibility.ConformanceLegacyRoot | conformance/implementation_profile_check.py:235-244 | appending a copy of an odd last node computes the legacy root |
| LeafLog.RootRowsAreOrdered | src/db.rs:1572-1583 | root rows are unique by root and count, and counts increase in row order |
| LeafLog.InsertKeepsLogInv | src/db.rs:1548-1600 | row k of the root table stays the committed root of the first k + 1 leaves |
| LeafLog.InsertedLeaves | src/db.rs:1548-1600 | a new hash is appended with its row, and one that is there is left as it is |
| LeafLog.CurrentRootIsLast | src/db.rs:2145-2176 | in a reachable log the current root is the newest row and nothing is written |
| LeafLog.CurrentRootCoversLog | src/db.rs:2145-2176 | whatever the table holds, the current root is that of the whole log |
| LeafLog.CurrentRootIsStored | src/db.rs:2145-2176 | afterwards the table has a row of that root for the whole log, and a row is added only when there was none |
| LeafLog.UnanchoredIsAfterLongestAnchoredPrefix | src/db.rs:998-1009 | the leaves counted as unanchored are those after the longest anchored prefix |
| Selection.SelectCoveringRoot | src/db.rs:2119-2143 | the first covering count-bound root, else the first covering legacy root, else none |
| Selection.AnchoredCoveringIs | src/db.rs:1493-1509 | the query lists the anchored rows of at least this count by count, and those of one count in table order, each as often as the table has it |
| Selection.BundleVerifies | src/api.rs:1190-1222 | the proof made for a selected root passes the server's check, count-bound whenever the root is |
| Selection.SelectedIsPreferred | src/db.rs:1491-1524 | the selected root is the smallest anchored count-bound one, else the smallest anchored legacy one |
| Selection.NoneSelectedMeansCurrent | src/db.rs:1513-1524 | without an anchored covering root the current root is the preferred one |
| Journal.PrepareKeeps | src/db.rs:1038-1089 | preparing journals exactly this intent, keeps the journal invariant, and leaves the roots alone |
| Journal.PrepareSucceedsIff | src/db.rs:1038-1089 | when preparing succeeds, and the new row member by member |
| Journal.FinalizeSucceedsIff | src/db.rs:1126-1183 | finalizing a prepared row fails only when another root row carries its transaction id |
| Journal.FinalizeKeeps | src/db.rs:1126-1183 | finalizing records the row, maps its root, and alters nothing that was recorded |
| Journal.FinalizeSucceedsWhen | src/db.rs:1126-1161 | for any tables, when finalizing succeeds, and that it maps the newest row of the exact root and no other |
| Journal.FinalizeIs | src/db.rs:1163-1180 | the finalized row member by member: recorded, since the first recording, and scheduled for now unless it was scheduled or confirmed |
| Journal.FinalizedIsDue | src/db.rs:1163-1180 | a row that was neither scheduled nor confirmed is due from its finalization on, and one that was confirmed never is |
| Journal.RecordReferenceKeeps | src/db.rs:2259-2327 | recording a reference sets at most one row, and only what was not set |
| Journal.ReferenceMapsNewest | src/db.rs:2259-2327 | a reference is recorded exactly when the newest row of the root and the transaction are free for each other, and then that row alone has changed |
| Journal.ConfirmKeeps | src/db.rs:1258-1292 | a confirmed row's root has the confirmed height, and no signed transaction changes |
| Journal.ConfirmSucceedsIff | src/db.rs:1258-1292 | confirming a recorded row fails only at a height other than the one its root has |
| Journal.ConfirmIs | src/db.rs:1258-1292 | when confirming succeeds for any tables; one attempt more, confirmed now, no longer scheduled, and every other row as it was |
| Journal.ConfirmedIsNeverDue | src/db.rs:1185-1221 | a confirmed row is not looked at again |
| Journal.UncheckedHeightIsTaken | src/db.rs:1294-1315 | the command line takes any height for a recorded anchor, and confirming at the right one fails from then on |
| Journal.RecordAnchorKeeps | src/db.rs:1294-1315 | the command-line recording leaves the journal alone and keeps its invariant |
| Journal.RecordAnchorIs | src/db.rs:1294-1315 | when the command line records, and that it maps the newest row of the root alone |
| Journal.RecordManualKeeps | src/db.rs:1317-1368 | the administrator's recording keeps the journal invariant, prepared or not |
| Journal.RecordManualIs | src/db.rs:1317-1368 | when the administrator's recording succeeds; the newest row of the root carries the height, and what was prepared is confirmed, tried once more, unscheduled and still prepared |
| Journal.ReconciledIsNeverDue | src/db.rs:1349-1360 | a prepared row that was reconciled is confirmed when it is finalized and never looked at |
| Journal.RetryKeeps | src/db.rs:1223-1256 | a failed confirmation keeps the journal invariant and the roots |
| Journal.RetriedRowIsDueAgain | src/anchor.rs:412-417 | after any retry the row is due again within the hour |
| Journal.RetrySecondsAre | src/anchor.rs:412-417 | 90 seconds at first, twice as long each time, then an hour |
| Journal.DueRowsAreMapped | src/db.rs:1185-1221 | due rows are recorded, unconfirmed, and mapped on their exact root |
| Protocol.NextKeeps | src/anchor.rs:243-332 | every step of the loop, from reading the root to finishing, every concurrent recording and every crash keeps the whole invariant and loses nothing recorded |
| ProtocolRuns.RunInv | src/anchor.rs:243-332 | the invariant holds in every reachable state |
| ProtocolRuns.RunKeepsTables | src/db.rs:2288-2325 | from any point of a run on, no journaled transaction is lost or altered and no set transaction id or height changes |
| ProtocolRuns.SentTransactionsAreSingle | src/anchor.rs:287-319 | whatever was sent is journaled with those bytes, one transaction for each root, and at most one row is prepared |
| ProtocolRuns.JournaledBeforeSent | src/anchor.rs:283-299 | a transaction is journaled before it is handed to the node |
| ProtocolRuns.NoPositionIsSpentTwice | src/anchor.rs:315-319 | two transactions journaled by one process spend notes at different positions |
| ProtocolNotes.AllAreExplained | src/anchor.rs:262-299 | over any run each journaled transaction spends a note that the wallet tracked at the journaled position |
| ProtocolNotes.BuiltIsPaidFor | src/anchor.rs:262-299 | what is built is for the root that was read and spends an unspent note of amount and fee |
| ProtocolNotes.RecordedWasAccepted | src/anchor.rs:283-319 | over all runs, whatever is recorded was handed to the node and taken by it |
| ProtocolNotes.SeenNoteIsNotSpent | src/wallet.rs:366-382 | once the chain has shown the nullifier of a note, no transaction is built over it |
| ProtocolNotes.ErrorResumes | src/anchor.rs:255-261 | after an error the next round finds the prepared transaction again |
| ProtocolNotes.NoNoteIsSpentTwice | src/anchor.rs:315-319 | two transactions of one process reveal the same nullifier only if that nullifier was tracked at two positions |
| ProtocolNotes.NoNullifierIsRevealedTwice | src/anchor.rs:315-319 | when no note was tracked at two positions, two transactions of one process never spend the same note |
| ProtocolNotes.RepeatedNoteIsSpentTwice | src/wallet.rs:384-400 | a run in which one note, tracked at two positions, is spent by two journaled transactions |
| ProtocolRuns.RecordedRowsAreMapped | src/db.rs:1126-1292 | over all runs, recorded means mapped on the exact root, confirmed means that root has a height |
| ProtocolRuns.FinalizationFailsOnlyOnReuse | src/db.rs:1126-1183 | in every reachable state, the one case in which finalizing fails |
| ProtocolRuns.FinalizationSucceeds | src/db.rs:1126-1183 | with new transaction ids finalizing a prepared row never fails, whatever happened in between |
| ProtocolRuns.RecoveryCompletesIff | src/anchor.rs:255-326 | after a crash at any point the prepared transaction is recorded, with its journaled bytes, exactly when the restarted wallet tracks the journaled position; otherwise the tables stay as they are |
| Recovery.RestartRecoversIff | src/scanner.rs:251-265 | with the wallet of the recovery scan the prepared row is recorded exactly when its note lies behind the frontier in what was fed, and is stranded otherwise |
| Recovery.StrandedStays | src/anchor.rs:318-319 | a stranded row stays prepared and nothing else is journaled, whatever happens, until a note at that position is tracked |
| Recovery.GrowingChainStrands | src/wallet.rs:902-912 | and for good when every later restart seeds its wallet behind the note |
| Recovery.OldNoteStrandsAnchor | src/scanner.rs:251-265 | a crash after journaling and a wallet seeded behind the note leave the row prepared |
| Confirmations.RoundReaches | src/anchor.rs:419-456 | a round handles exactly the rows before the first one whose root has another height than the node tells, and changes no other row |
| Confirmations.ReachedIsAnswered | src/anchor.rs:427-453 | a row that a round reaches is confirmed at the height of 32 bits that the node tells, or tried once more |
| Confirmations.BatchIsFirst | src/db.rs:1196-1206 | the list is the first eight waiting rows by recording time and transaction id, and no waiting row left out is earlier |
| Confirmations.FirstOfTwoRefuses | src/anchor.rs:427-429 | two due rows of which the first refuses: the second is not looked at |
| Confirmations.ClaimedHeightRefuses | src/db.rs:1294-1315 | after the command line claimed a height, a recorded row refuses every other one |
| ConfirmationRuns.RoundIsPlayed | src/anchor.rs:419-456 | a round is the sequence of confirmations and retries of the protocol that it makes |
| ConfirmationRuns.ClaimedHeightStays | src/db.rs:1294-1315 | in a run, a height claimed on the command line stays, and confirming at any other one changes nothing |
| ConfirmationRuns.StuckRowBlocks | src/anchor.rs:419-456 | over all runs a row stuck on a wrong height, for which the node answers, stays as it is and keeps every row behind it from being confirmed |
| ConfirmationRuns.DueWithinTheHour | src/db.rs:1163-1256 | over all runs, every recorded anchor that is not confirmed is due an hour after the last event, and from then on |
| ProtocolRuns.ReusedIdIsStuck | migrations/004_anchor_broadcasts.sql:23-24 | a builder output equal to an id recorded before leaves a prepared row that cannot be finalized |
| ProtocolRuns.ReusedIdStaysStuck | migrations/004_anchor_broadcasts.sql:23-24 | and that row stays prepared, and cannot be finalized, at every later point of every run |
| ProtocolRuns.ConfirmationFailsOnlyOnHeight | src/db.rs:1258-1292 | in every reachable state, the one case in which confirming fails |
| ProtocolRuns.WrongHeightStays | src/db.rs:1258-1292 | a height once recorded makes confirming at another one fail at every later point |
| ProtocolRuns.RunLogInv | src/db.rs:1548-1600 | in every reachable state of the protocol each root row is the root of its prefix, whatever the hash |
| ProtocolRuns.DistinctRootsOfLog | src/merkle.rs:48-56 | collision-free hashing of the log gives every root row another hash |
| Payments.EnsureLeafEnsures | src/db.rs:1900-1997 | ensuring the lifecycle leaf puts it in the log, keeps the log invariant and every leaf |
| Payments.EnsureLeafIs | src/db.rs:1900-1997 | the leaf can be ensured exactly when what the invoice owes can be hashed and its hash stands for no other row; then it is there, and no other was added |
| Payments.RecordPaymentKeeps | src/db.rs:1724-1898 | recording a payment keeps the ledger invariant |
| Payments.ReplayChangesNothing | src/db.rs:1753-1785 | recording a payment again at its height leaves the whole ledger as it is |
| Payments.LegacyRowIsPromoted | src/db.rs:1753-1785 | a row stored from the mempool is confirmed as one from a block, and one of unknown source is refused |
| Payments.OthersDoNotCount | src/db.rs:1820-1830 | what was not seen in a block does not count |
| PaymentRuns.RunInv | src/db.rs:1724-1997 | received is the sum of the block payments; pending, partial, paid and expired mean what they say; paid has its leaf in the log |
| PaymentRuns.RunDevelops | src/db.rs:1833-1890 | paid is final and names its transaction for good, expired never changes, no payment is lost |
| PaymentRuns.NoPaidProgramWithoutEntry | src/db.rs:506-527 | the list of paid program invoices without an entry leaf is empty in every reachable ledger |
| PaymentRuns.PaidInvoiceHasItsLeaf | src/db.rs:1900-1950 | in every reachable ledger a paid invoice with a wallet has the row of its type: entry, hosting payment for the first machine of the wallet, or renewal of the year |
| PaymentRuns.ConfirmAddsItsLeaf | src/db.rs:1724-1898 | a confirmation adds at most the leaf that its invoice owes, and only when the invoice is paid |
| PaymentRuns.PayableIff | src/db.rs:1892-1894 | an invoice can be paid exactly when the total is short or the leaf that it owes can be made |
| PaymentRuns.ApplyAllIs | src/db.rs:1814-1898 | a sequence of confirmations succeeds exactly when the total is short or the leaf can be made, and leads where its set of transactions says |
| PaymentRuns.Confluence | src/db.rs:1724-1898 | the outcome depends on the set of transactions and values, not on order, heights or repetition |
| PaymentRuns.RefusalDependsOnOrder | src/db.rs:1892-1894 | without the leaf, the second of two payments is refused in either order |
| PaymentRuns.PaymentsAreConfirmed | src/db.rs:1724-1812 | over any run the payments of an invoice are its confirmations that succeeded |
| PaymentRuns.OutcomeFollows | src/db.rs:1814-1898 | whatever happens in between, sum and status follow from the set of confirmations that succeeded, and paid has its leaf |
| PaymentRuns.ConfirmSucceedsIff | src/db.rs:1724-1898 | when a confirmation succeeds, in any reachable ledger |
| Database.Db.InsertLeafRaw | src/db.rs:1548-1600 | inserts leaf and root row at once, returns the stored leaf and the root of the whole log |
| Database.Db.CurrentMerkleRoot | src/db.rs:2145-2176 | returns the current root and adds a missing row |
| Database.Db.UnanchoredLeafCount | src/db.rs:998-1009 | counts the leaves after the largest anchored root |
| Database.Db.GetVerificationBundle | src/db.rs:1475-1544 | a bundle for every leaf and no other hash, under the preferred root, never invalid, and rejected only as a legacy proof past the cutoff |
| Database.Db.PrepareAnchorBroadcast | src/db.rs:1038-1089 | journals the intent once, or fails and changes nothing |
| Database.Db.FinalizeAnchorBroadcast | src/db.rs:1126-1183 | records the row and maps its root in one step, or changes nothing |
| Database.Db.RecordAnchorReferenceInTx | src/db.rs:2259-2327 | succeeds exactly when the newest row of the root may be mapped; that row then carries transaction and height, and every other row is as it was |
| Database.Db.ConfirmAnchorBroadcast | src/db.rs:1258-1292 | sets the height and closes the row, or changes nothing |
| Database.Db.RecordMerkleAnchor | src/db.rs:1294-1315 | refused while a broadcast is prepared |
| Database.Db.RecordConfirmedManualAnchorReference | src/db.rs:1317-1368 | reconciles the prepared broadcast exactly, or maps a root when none is prepared |
| Database.Db.RecordAnchorConfirmationRetry | src/db.rs:1223-1256 | an unconfirmed recorded row is due again after the delay with one attempt more, and no other row changes |
| Database.Db.DueAnchorConfirmations | src/db.rs:1185-1221 | the recorded, unconfirmed rows whose time has come, by time and transaction id, at most eight |
| Database.Db.ReconcileDueAnchorConfirmations | src/anchor.rs:419-456 | the loop leaves what the round leaves, and fails exactly when it does not reach the end |
| Database.Db.EnsureInvoiceLifecycleLeaf | src/db.rs:1900-1997 | inserts the lifecycle leaf once and checks what is stored under its hash |
| Database.Db.ApplyConfirmedTotal | src/db.rs:1814-1898 | moves the invoice to the state that the sum of its payments says |
| Database.Db.RecordConfirmedPayment | src/db.rs:1724-1812 | records the payment, the state and the leaf together, or changes nothing |
| Database.Db.ExpireOldInvoices | src/db.rs:357-365 | expires exactly the pending invoices past their time |
| Database.Db.GetActiveInvoices | src/db.rs:329-341 | the pending and partial invoices, each once |
| Verifiers.WalkProofLoop | verify_proof.py:207-224 | the loop computes the walk, and fails exactly on a step that is not one |
| Verifiers.AuditAgreesWithScript | src/bin/zap1_audit.rs:274-346 | the audit tool and the script accept the same bundles |
| Verifiers.WidgetAgreesWithAudit | verify-widget/blake2b.js:332-404 | the widget accepts at a height of 32 bits what the audit tool accepts, of the current version and with an exact count |
| Verifiers.OnlyWidgetAcceptsHighBundle | verify-widget/blake2b.js:332-404 | a bundle at a height of more than 32 bits that only the widget accepts |
| Verifiers.CountBoundLabelNeedsCommitment | verify_proof.py:238-263 | a bundle labelled count-bound is accepted only through its count commitment |
| Verifiers.PublishedIsAcceptedIff | src/api.rs:1108-1147 | a published bundle is accepted by each verifier exactly when the server's check reports it valid |
| EventProofs.AcceptedEventIsInLog | verify_proof.py:81-125 | an accepted count-bound bundle for an event means that this event is in the log, at which place, and how long the log is |
| EventProofs.ServedBundleIsAccepted | src/db.rs:1530-1543 | a bundle served under a count-bound root is accepted by every verifier |
| Hex.DecodeInvertsEncode | src/bin/zap1_audit.rs:199-227 | hexadecimal reads back what it wrote |
| Hex.EncodeInvertsDecode | src/bin/zap1_audit.rs:199-227 | lowercase hexadecimal is written back as it was read |
| Hex.EncodedAt | src/bin/zap1_audit.rs:199-227 | the two digits of every byte |
| Memo.BuildPreimage | src/memo.rs:174-414 | the appended buffer is the preimage, and there is none for a field that is too long |
| Memo.EventPreimageInjective | src/memo.rs:174-414 | different events, of any types and fields, have different preimages |
| Memo.PreimageIsLayout | src/memo.rs:174-392 | the preimage of each event byte by byte: type, lengths, strings and integers |
| Memo.LeafIsHashed | src/memo.rs:395-420 | a leaf is hashed from these bytes under the padded personalization |
| Fields.EncodingInjective | src/memo.rs:178-182 | field lists whose kinds agree as far as their values do are told apart by their bytes |
| Fingerprint.EncodeCase | equivalence/fingerprint.py:57-94 | the appended buffer is the encoding of the case, and out of range values are refused |
| Fingerprint.CaseEncodingInjective | equivalence/fingerprint.py:57-94 | different cases have different encodings, for proofs of any length and all optional fields |
| Fingerprint.CaseEncodingIs | equivalence/fingerprint.py:57-94 | the encoding of a case byte by byte |
| Fingerprint.DomainIs | equivalence/fingerprint.py:34 | the domain of the encoding as text |
| StructuredMemo.MemoRoundTrip | src/memo.rs:137-171 | what is written is read back |
| StructuredMemo.WrittenMemoIs | src/memo.rs:138-145 | the 72 characters that are written |
| StructuredMemo.DecodeMemoIff | src/memo.rs:147-171 | which texts are read, and as which memo |
| StructuredMemo.ReadIsWrittenIff | src/memo.rs:137-171 | what was read is what would be written exactly for the canonical spelling |
| StructuredMemo.LegacyPrefixIsRead | src/memo.rs:137-171 | a memo under the legacy prefix is read and written back under the current one |
| Tvlv.CompactSizeRoundTrip | src/zip302.rs:42-98 | a size is read back whatever follows it |
| Tvlv.CompactSizeCanonical | src/zip302.rs:60-98 | only the shortest form of a size is read |
| Tvlv.CompactSizePrefixFree | src/zip302.rs:42-58 | no encoding of a size is a prefix of another |
| Tvlv.EncodeTvlv | src/zip302.rs:103-119 | the loop writes the frame of its parts, padded to 512 bytes |
| Tvlv.DecodeTvlv | src/zip302.rs:121-175 | the loop computes the decoder's outcome, including the overflow that panics |
| Tvlv.TvlvRoundTrip | src/zip302.rs:103-175 | parts of distinct non-zero types within the size limit are read back |
| Tvlv.DecodedIsFrameIff | src/zip302.rs:121-175 | what was read is what would be written exactly when no cast dropped a bit |
| Tvlv.TruncationExample | src/zip302.rs:121-175 | a type cut down by the cast |
| Tvlv.OverflowExample | src/zip302.rs:121-175 | a length whose end overflows makes decoding panic |
| Tvlv.DecodePanicsIff | src/zip302.rs:121-175 | decoding panics exactly when the parse reaches a length that ends beyond 64 bits |
| Tvlv.NoPanicWithoutSixOnes | src/zip302.rs:121-175 | a memo without six bytes of 0xFF in a row never makes it panic |
| TvlvFrames.DecodesIff | src/zip302.rs:121-175 | a memo is decoded exactly when it is, within 16384 bytes, the marker, parts of non-zero types that the cast keeps apart, the end and zeros; and the parts are returned cut to their widths |
| TvlvFrames.OthersAreRefused | src/zip302.rs:121-127 | another marker and a memo that is too long |
| TvlvFrames.MissingEndIsRefused | src/zip302.rs:133-136 | parts without an end marker |
| TvlvFrames.PaddingIsRefused | src/zip302.rs:141-149 | something other than zeros behind the end |
| TvlvFrames.RepetitionIsRefused | src/zip302.rs:151-154 | a type that the cast makes equal to an earlier one |
| Wallet.AnchorWallet.ProcessBlockCommitments | src/wallet.rs:295-405 | appends the block's leaves, spends by its nullifiers, then adds its notes at their positions |
| Wallet.AnchorWallet.BuildPlan | src/wallet.rs:496-576 | the first unspent note that covers amount and fee, and the change |
| Wallet.AnchorWallet.BalanceOf | src/wallet.rs:407-414 | the sum over the unspent notes |
| Wallet.AnchorWallet.MarkSpentAtPosition | src/wallet.rs:888-898 | succeeds exactly when an unspent note stands at the position; then one such note is spent and every other is as it was |
| Wallet.AnchorWallet.EnsureSpentAtPosition | src/wallet.rs:902-912 | the same for a note that may be spent already |
| WalletRuns.RunInv | src/wallet.rs:295-405 | every note stands at its own marked commitment, positions ascend below the next one, and the tree is the chain's commitments in order |
| WalletRuns.TrackedIffMarked | src/wallet.rs:366-400 | a note is tracked at a position exactly when a leaf of the fed blocks stands there that is marked |
| WalletRuns.RunKeepsNotes | src/wallet.rs:366-400 | no note is lost, altered or unspent again |
| WalletRuns.SpentIffSpentAfterItsBlock | src/wallet.rs:366-400 | a note is spent exactly when something after its own block spends it |
| WalletRuns.SpentIffSpentFromItsBlock | src/wallet.rs:366-400 | when no block spends a note that it brings, as consensus asks, a note is spent exactly when its block or anything later spends it |
| WalletRuns.BlockBalance | src/wallet.rs:295-414 | a block changes the balance by what it pays in less what it spends |
| WalletRuns.PlanIs | src/wallet.rs:496-576 | a transaction is built exactly when an unspent note covers it, and its value is amount, change and fee |
| WalletRuns.SpentNoteIsNotReused | src/wallet.rs:501-506 | no later transaction spends the position of a note once spent, nor a note of its nullifier when tracked nullifiers are distinct |
| WalletFeeds.NoteIsAtItsPlaceIff | src/wallet.rs:370-400 | with transactions fed in any order, in part and any number of times, a note is at its chain position exactly when as many actions were fed before its transaction as the chain has there |
| WalletFeeds.EveryFeedIsTracked | src/wallet.rs:384-400 | every action that pays the wallet has its note for every time its transaction was fed |
| WalletFeeds.AllAtTheirPlacesIff | src/wallet.rs:370-400 | all notes are at their chain positions exactly when every transaction that pays the wallet was fed in its place |
| WalletFeeds.TreeIsChainIff | src/wallet.rs:295-405 | the tree is the chain's commitments exactly when every transaction with actions was fed once and in order |
| WalletFeeds.SkippedTransactionMisplaces | src/scanner.rs:303-307 | a transaction that is not fed leaves the next note one place too low |
| WalletFeeds.RepeatedBlockMisplaces | src/main.rs:97-124 | a block fed twice moves the next note one place too high |
| Scanner.MatchPayments | src/scanner.rs:131-151 | every invoice that a transaction pays, once, with the sum of all outputs to it; fails exactly on overflow |
| Scanner.ScanBlock | src/scanner.rs:98-217 | records exactly the payments of the transactions that were returned, or stops |
| Scanner.ScanOnce | src/scanner.rs:53-231 | the cursor never falls and takes every height in turn; an error leaves it just before the failing block, with all earlier blocks recorded and fed to the wallet; without active invoices it moves and the wallet is not fed |
| ScanRuns.ScanLoop | src/scanner.rs:36-49 | the loop of scans and expiry keeps one history: every scan starts where the last one left the cursor |
| ScanRuns.ActiveScansAreConsecutive | src/scanner.rs:62-67 | while invoices are active, the scans take every height in turn from the one behind the stored cursor |
| ScanRuns.NoneBetweenIsLeftOut | src/scanner.rs:62-67 | so that no height between the first and the last one is left out |
| ScanRuns.NoHeightIsLeftOut | src/scanner.rs:53-231 | over any scans, failed ones too, every height up to the cursor was scanned, or passed while no invoice was active |
| ScanRuns.WatchedIffUnsettled | src/db.rs:329-341 | in every reachable ledger a scan looks for an invoice exactly when it is neither paid nor expired, at its own address |
| Scanner.RescanChangesNothing | src/scanner.rs:153-162 | the calls of a scanned block, repeated in any order, leave the ledger as it is |
| Scanner.BlockIsCompleteIff | src/scanner.rs:102-109 | the calls of a finished block are all its payments exactly when no transaction that was not returned pays a watched invoice |
| Scanner.UnfetchedPaymentIsMissed | src/scanner.rs:102-109 | a payment in a transaction that is not returned leads to no call |
| Scanner.ScanIsCompleteIff | src/scanner.rs:98-217 | the same of all blocks of a scan |
| Scanner.FedRangeIsRun | src/scanner.rs:207-215 | feeding a range of blocks is a run of the wallet |
| Scanner.RawTxsAre | src/scanner.rs:303-307 | the wallet is given exactly the transactions that were returned, in the order of the block |
| Rescans.StoppedScanAgreesIff | src/scanner.rs:36-49 | a stopped scan, expiry and the resumed scan leave the invoices, payments and leaves of one complete scan exactly when no remaining payment is for an invoice that the first part completed or let expire, in whatever order each goes |
| Rescans.StoppedScanDropsPayment | src/scanner.rs:73-81 | the two payments of which a stopped scan loses one |
| Rescans.StoppedScanLetsInvoiceExpire | src/scanner.rs:36-49 | an invoice that one scan records as paid expires between two |
| Scanner.RecoveryScan | src/scanner.rs:240-340 | from its start near the tip, seeded there, it feeds the wallet every block the node returns, once and in order; it fails exactly when the tip or the frontier cannot be had or a batch end overflows 32 bits |
| Blake2b.HashBlocks | verify-widget/blake2b.js:86-118 | the loop makes the calls of section 3.3 of RFC 7693, for every length |
| Blake2b.BlocksAreTheInput | verify-widget/blake2b.js:100-114 | every byte is compressed once and in order, then less than a block of zeros |
| Blake2b.CallsOfHash | verify-widget/blake2b.js:100-114 | the loop's calls are 128-byte blocks that are the input and less than a block of zeros, count the bytes so far, and only the last is final |
| Blake2b.StateIsCompressed | verify-widget/blake2b.js:100-114 | whatever the compression function, the hash is what these calls make of the initial state |
| Blake2b.CallsDetermineInput | verify-widget/blake2b.js:86-118 | different inputs make different calls |
| Blake2b.BuildParameterBlock | verify-widget/blake2b.js:86-95 | the parameter block, with a short personalization padded and a long one cut |
| Blake2b.ParameterBlockIs | verify-widget/blake2b.js:86-95 | the parameter block by offsets |
| Blake2b.ParameterBlockSeparates | verify-widget/blake2b.js:86-95 | 16-byte personalizations are told apart |

## Left out

- The compression function of BLAKE2b, note decryption, proving, signing, transaction assembly
  and the note commitment tree: parameters of the model, or a plain sequence of leaves.
- Locks, SQLite and network mechanics: a transaction is one step, and replies are inputs.
- HTTP handlers, statistics, rendering, notifications, webhooks, key derivation, configuration.
- Created, paid and error columns; times are natural numbers; the year and month of a lifecycle
  leaf are given with the invoice, since its memo and creation time never change.
- Legacy payment rows written before confirmation: `Database.Db.RecordConfirmedPayment` promotes
  them, but reachable ledgers start from an empty database and have none.
- Hexadecimal spelling of hashes in the database: roots, leaves and transaction ids are 32 bytes
  there; the spelling matters in `Hex`, `Verifiers` and `StructuredMemo`.
- Leaf inserts with a field too long to hash, which make the program panic, are failures.
- `record_merkle_anchor_height`, which nothing calls.
- ConfirmationRuns.StuckRowBlocks: one round has one time for all its rows, and what else happens
  falls between rounds.
- When the anchor loop starts a round and how long it backs off: a run may start one at any time.
- Protocol.NextKeeps: `mine` covers the transactions of one process; after a restart only the
  prepared one is known to spend a tracked note, since the wallet is rebuilt from the chain.
- PaymentRuns.Confluence: starts from a pending invoice; the transaction that is named as the
  paying one does depend on the order and is not compared.
- PaymentRuns.RunInv: new invoices are pending and unpaid, as the callers create them.
- WalletRuns.PlanIs: assumes that no tracked note is worth more than all money; whether the
  builder's fee rule agrees with the fixed fee is not part of the model.
- WalletRuns.BlockBalance: assumes tracked notes of distinct nullifiers, which the chain ensures.
- The mempool scan between two scans, which writes nothing.
- Scanner.ScanOnce: heights are unbounded, and the repair of paid program invoices without a leaf is
  left out because there are none (`PaymentRuns.NoPaidProgramWithoutEntry`). A scan is one step:
  that the recovery feeds the wallet at the same time is in `WalletFeeds`.
- WalletFeeds.TreeIsChainIff: assumes that no two actions of the chain have the same commitment.
- Rescans.StoppedScanAgreesIff: between the two scans invoices expire and nothing else changes the
  ledger, and the resumed scan ends at the same block as the complete one. Heights of payments and
  the transaction named as the paying one are not compared.
- Verifiers.AuditAgreesWithScript: bundles whose fields have the right JSON types.
- EventProofs.AcceptedEventIsInLog: for bundles labelled count-bound; `Binding.LegacyProofBindsMembership`
  is the weaker statement for legacy proofs.

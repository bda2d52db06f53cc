# LedgerForge: a verified model

LedgerForge is a double-entry ledger written in Go over PostgreSQL. This project models its core in
Dafny and proves what that core is for:

- **Amounts.** Minor-unit amounts are printed as decimals and parsed back at any integer scale, also
  where the expansion never ends.
- **Ledger.** Transfers, holds, partial and queued commits, rejections and voids keep credits equal
  to debits over every run. A settlement within a hold is never refused below the float64 limit, and
  no balance falls below its overdraft floor.
- **Versioned writes.** Any number of workers read rows, apply batches in memory and write back
  through a version check. Every interleaving is serializable, failed commits included.
- **History.** A balance at a past moment is computed from a snapshot or from the whole journal; the
  two agree exactly when the snapshot is faithful or both fail.
- **Splits.** A transaction is split over fixed, percentage and "left" parts in exact decimals. The
  result conserves the total and does not depend on any order.
- **The audit chain.** Rows are sealed into a hash chain with checkpoints. Sealed data verifies, and
  an accepted external anchor pins down every row before it or exhibits a hash collision.
- **Spending policies.** Admissions charge daily budgets of a whole delegation ancestry, releases
  give back what the journal shows was not used, approvals are final and independent, and locks are
  taken in sorted order.

Code that works by changing state is written as classes, methods and loops and is proved against
specification functions; the theorems are about those functions and about runs of them. `dafny
verify dfyconfig.toml` checks everything.

| file | about |
|---|---|
| `Decimals`, `Arithmetic`, `Amounts` | decimal text, rounding, precision |
| `Sums`, `RealSums`, `StringOrder`, `Basics` | order-free sums, the order of identifiers, options |
| `Ledger`, `BookKeeping`, `Holds` | balances, books, holds and their journal |
| `Store`, `Protocol` | versioned writes and their interleavings |
| `History` | balances at a past moment |
| `Allocation`, `Split`, `SplitText` | what a split allocates, and the passes that compute it |
| `Canonical`, `Chain`, `Audit` | encodings, sealing, verification |
| `Delegation`, `Locks` | key ancestry, approvers, the lock protocol |
| `PolicyRules`, `Budgets`, `PolicyRuns` | policies, budget tables, runs |
| `PolicyFamily`, `PolicyStore` | what a reservation's journal rows free, the operations |

Results that are false as one would first state them, with the condition under which they hold:

- Applying the precision twice equals once if and only if the printed text fits the parser's cap and
  the amount is below the float64 limit at its scale; for every scale that a float64 can hold the
  limit alone decides (`Amounts.AppliedTwice`, `Amounts.ReapplicableIff`,
  `Amounts.OverflowingAmount`). The settlement of a hold is refused on exactly that ground and no
  other (`Holds.SettlementRecordedIff`).
- A database transaction that fails after its version check leaves the in-memory versions ahead of
  the rows. Interleavings are serializable because such objects are dropped: the ledger reads the
  balances anew under the lock (internal/core/transaction_execution.go:569-593 and 702-732). Without
  that, a run is serial throughout if and only if every accepted commit saw the counters of the rows
  it wrote, and a retry with old objects is accepted if and only if others wrote each row exactly as
  often as its copy is ahead (`Protocol.RunIsSerial`, `Protocol.StaysSerialIff`,
  `Protocol.RetryAcceptedIff`, `Protocol.StaleRetryOverwrites`).
- The snapshot path and the from-source path of a historical balance agree if and only if the
  snapshot equals the replay up to its time or an amount after it is unreadable, which makes both
  fail (`History.PathsAgree`, `History.BackdatedEntryDiverges`).
- Version 1 of the chain encoding determines the fields of a row, against every other row, if and
  only if none of them contains the separator (`Canonical.V1DeterminesIff`, `Canonical.V1Ambiguous`).
- The final correction of a split is less than one minor unit per leg once the unclaimed amount is
  taken off, and nothing is unclaimed if and only if the parts claim the whole total
  (`Allocation.ResidueBound`, `Allocation.UnclaimedWhen`, `Allocation.UnclaimedGoesToLargest`).
- Sorted locking excludes circular waits if and only if keys that share an advisory lock are
  contiguous in the sort order; the comment at database/policy_delegation.go:69-70 takes the order of
  keys for the order of locks (`Locks.NeverCircularIff`, `Locks.SharedLockDeadlocks`). That is for
  all lists over a set of keys; on a given delegation table the exact condition is that its sorted
  ancestries form no ring (`Locks.TableNeverCircularIff`).
- The reported capacity agrees with admission if and only if the total is positive or no ancestor is
  over its limit (`PolicyStore.CapacityAgrees`, `PolicyStore.CapacityDecides`,
  `PolicyStore.ZeroTotalRefused`).
- Independence of an approver survives everything that may be registered later if and only if it
  holds now, the approver is registered, and the requester is registered too unless the approver is
  a root (`Delegation.StaysIndependentIff`). The source accepts unknown keys as in-process roots, and
  each of the other cases loses independence (`Delegation.UnknownApproverLoses`,
  `Delegation.UnknownRequesterLoses`, `Delegation.BothUnknownLose`). So the approvals of a run stay
  independent throughout if and only if each met that condition when it was given, or came from the
  master (`PolicyRuns.ApprovalsLastIff`); with authenticated keys all do
  (`PolicyRuns.ApprovalsStayIndependent`).

## Model

| member | source | states |
|---|---|---|
| `Decimals.ParseText` | model/amount.go:108-123 | parsing the plain notation of a number gives that number back, with the dropped zeros divided out |
| `Amounts.ParseAmount` | model/amount.go:40-59 | a successful parse is a positive decimal rounded to the nearest minor unit; a positive decimal that rounds to zero is refused |
| `Amounts.ParsesIff` | model/amount.go:40-59 | a parse succeeds exactly for a positive decimal, at a non-negative precision, that does not round to zero minor units |
| `Amounts.CountPlaces` | model/model.go:336-371 | the factor-stripping loops end and compute the number of printed places |
| `Amounts.PlacesExact` | model/model.go:336-371 | the places are exact precisely for scales whose expansion ends; otherwise the printed scale is finer than the amount scale |
| `Amounts.PrintedExactly` | model/model.go:336-371 | for a scale whose expansion ends the printed number times the scale is the amount |
| `Amounts.ReadsBack` | model/model.go:336-371 | for every scale the printed coefficient, rounded back, is the amount |
| `Amounts.RoundTrip` | model/amount.go:40-59 | every positive amount survives printing and parsing at every positive scale, exactly when its text is at most 4096 characters |
| `Amounts.Transaction.ConvertPreciseToDecimal` | model/model.go:336-371 | sets the decimal text and float of the minor-unit amount and nothing else |
| `Amounts.Transaction.ApplyPrecision` | model/model.go:261-292 | new fields and result are the specified application of the precision |
| `Amounts.Transaction.ApplyPrecisionChecked` | model/amount.go:97-102 | succeeds exactly for chargeable amounts; a refused transaction is left as it was |
| `Amounts.FloatIsFinite` | model/model.go:336-371 | at every scale the stored float is finite exactly when the amount is below the float64 limit times the scale |
| `Amounts.ReapplicableIff` | model/model.go:261-292 | at every scale that a float64 can hold the text of an amount below the float64 limit fits the parser, so the limit alone decides |
| `Amounts.AppliedTwice` | model/model.go:261-292 | applying the precision twice equals once if and only if the text fits the parser and the amount is below the float64 limit at its scale, for float64 scales the latter alone; otherwise the second call returns zero |
| `Amounts.OverflowingAmount` | model/model.go:336-371 | a valid amount beyond the float64 range for which the second application returns zero |
| `Ledger.FundsRule` | model/model.go:123-175 | a debit is accepted exactly when it is unlimited or leaves at least the negated allowance, holds and queued debits included |
| `Ledger.Balance.InitializeBalanceFields` | model/model.go:64-83 | missing figures read as zero; no figure changes |
| `Ledger.Balance.AddCredit` | model/model.go:87-95 | adds to the settled or to the inflight credit only |
| `Ledger.Balance.AddDebit` | model/model.go:99-106 | adds to the settled or to the inflight debit only |
| `Ledger.Balance.ComputeBalance` | model/model.go:110-117 | recomputes the settled or the inflight balance as credit minus debit |
| `Ledger.Balance.CanProcessTransaction` | model/model.go:123-175 | decides the funds rule without changing the balance |
| `Ledger.Balance.CommitInflightDebit` | model/model.go:204-217 | applies the precision, then settles exactly a positive amount within the inflight debit |
| `Ledger.Balance.CommitInflightCredit` | model/model.go:220-233 | applies the precision, then settles exactly a positive amount within the inflight credit |
| `Ledger.Balance.SettleDebit` | model/model.go:179-217 | moves the amount from inflight to settled debit, or changes nothing |
| `Ledger.Balance.SettleCredit` | model/model.go:191-233 | moves the amount from inflight to settled credit, or changes nothing |
| `Ledger.Balance.RollbackInflightDebit` | model/model.go:247-255 | takes a positive amount within the inflight debit out again, or changes nothing |
| `Ledger.Balance.RollbackInflightCredit` | model/model.go:236-244 | takes a positive amount within the inflight credit out again, or changes nothing |
| `Ledger.UpdateBalances` | model/model.go:406-436 | debits the source and credits the destination with one amount exactly when the amount is chargeable and the funds rule holds; otherwise neither balance changes |
| `Ledger.SettleHold` | internal/core/transaction_execution.go:319-378 | an accepted settlement moves both legs; states exactly when a failing one leaves the source leg moved in memory |
| `Ledger.ReleaseHold` | internal/core/transaction_execution.go:319-378 | a void releases both legs or neither |
| `Ledger.PostAllSplit` | model/model.go:406-436 | postings in sequence compose |
| `BookKeeping.PostKeepsDoubleEntry` | model/model.go:406-436 | a posting keeps credits equal to debits, settled and inflight |
| `BookKeeping.PostKeepsConsistent` | model/model.go:110-117 | a posting keeps each balance equal to credit minus debit |
| `BookKeeping.PostKeepsFloor` | model/model.go:123-175 | a posting under the cap keeps every balance above the floor |
| `BookKeeping.RunKeepsDoubleEntry` | model/model.go:406-436 | every run from zero balances conserves both pairs of totals, whatever its overdrafts |
| `BookKeeping.RunStaysAboveFloor` | model/model.go:123-175 | without unlimited overdraft and with caps of at most L, balance minus inflight debit is at least -L in every reachable state |
| `BookKeeping.FloorIsReached` | model/model.go:123-175 | the floor is exact: a single transfer can reach it |
| `Holds.OpenIsReserved` | database/transaction_inflight.go:31-78 | what the journal leaves open of a hold is covered by the inflight totals of both its balances |
| `Holds.RemainingIsReserved` | internal/core/transaction_inflight.go:595-609 | settling or voiding up to what remains of a hold passes both sufficiency checks |
| `Holds.PendingIsReserved` | internal/core/transaction_inflight.go:410-459 | a queued commit, reserved when it was requested, passes both checks when it runs, whatever happened to the hold in between |
| `Holds.SettlementRecordedIff` | internal/core/transaction_inflight.go:288-316 | a commit, queued commit or void whose own checks pass is recorded, with its amount, if and only if it is a void or its amount can be validated a second time |
| `Holds.SettlementNeverRefused` | internal/core/transaction_inflight.go:288-316 | below the float64 limit of the scale every such command is recorded |
| `Holds.StepKeeps` | internal/core/transaction_inflight.go:410-459 | each command keeps double entry, hold accounting and inflight totals equal to open holds |
| `Holds.RunKeeps` | model/model.go:179-255 | the invariant holds in every state reachable from zero balances |
| `Holds.StepKeepsFloor` | model/model.go:204-255 | commits, voids and rejections keep the overdraft floor |
| `Holds.RunKeepsFloor` | model/model.go:123-175 | the overdraft floor over runs with holds, partial and queued commits, rejections and voids |
| `Store.Database.UpdateBalance` | database/balance.go:876-908 | one compare-and-set row update; the object version follows exactly on success |
| `Store.Database.UpdateBalanceChunk` | database/balance.go:946-1063 | one statement writes the rows that still match and reports failure unless all did |
| `Store.Database.UpdateChunks` | database/balance.go:910-944 | chunks of 1000 together are one compare-and-set of the set |
| `Store.Database.UpdateBalanceSet` | database/balance.go:910-944 | a set with duplicates and nils is one compare-and-set; each object advances once, on success only |
| `Store.Unique` | database/balance.go:910-944 | keeps one object per identifier and drops none |
| `Store.Database.RecordTransactionWithBalances` | database/transaction.go:332-380 | both balances and the row are stored or everything is rolled back, also when the outbox or the commit fails; states what the objects are left with |
| `Store.Database.RecordTransactionsWithBalanceSet` | database/transaction.go:397-438 | all rows and all balances of a batch are stored or nothing is, also when the outbox or the commit fails; object versions advance exactly when the version check passed |
| `Store.WrittenTwice` | database/balance.go:910-944 | writing two disjoint sets one after the other is writing their union, and passes the same checks |
| `Store.ChunkStep` | database/balance.go:910-944 | one more chunk writes new rows only |
| `Protocol.PostIsLocal` | model/model.go:406-436 | a posting reads and changes only its two balances |
| `Protocol.BatchIsLocal` | model/model.go:406-436 | a batch succeeds on the table exactly as on any copy that agrees on the touched rows |
| `Protocol.BatchForgetsNothing` | model/model.go:406-436 | a batch that leaves two consistent books alike on the rows it touches found them alike |
| `Protocol.CleanCopiesFresh` | internal/core/transaction_execution.go:569-593 | in every interleaving, a worker that dropped its objects since its last failed transaction holds the current value wherever it holds the current version |
| `Protocol.CommitIsSerial` | database/transaction.go:397-438 | an accepted commit that saw the current rows writes what its batch makes of them |
| `Protocol.RunCounts` | database/balance.go:876-908 | in every run each version counts the committed batches that wrote the row |
| `Protocol.RunIsSerial` | internal/core/transaction_execution.go:569-593 | every interleaving of reads, commits and failed transactions, whose objects are dropped, leaves the table as if the committed batches had run alone in commit order |
| `Protocol.NextIsSerialIff` | database/balance.go:876-944 | one event keeps a serial table serial if and only if it is not an accepted commit of objects with outdated counters |
| `Protocol.StaysSerialIff` | database/balance.go:876-944 | without any discipline, a run is serial throughout if and only if every accepted commit saw the counters of the rows it wrote |
| `Protocol.AbortLeads` | database/transaction.go:275-316 | a failed transaction leaves the objects it wrote one version ahead and the others as they were |
| `Protocol.RetryAcceptedIff` | database/balance.go:876-908 | a worker that goes on with old objects, after anything others did, is accepted if and only if each row was written by others exactly as often as its copy is ahead |
| `Protocol.StaleRetryOverwrites` | database/transaction.go:275-316 | a run from zero balances in which such a retry is accepted and undoes a committed payment |
| `Protocol.FailedCommitChangesNothing` | database/transaction.go:397-438 | a stale or refused commit, or one that fails after the check, leaves every row and the log as they were |
| `Protocol.ConcurrentBooksAreSound` | model/model.go:406-436 | under every such interleaving from zero balances credits equal debits and the overdraft floor holds |
| `History.CalculateBalance` | database/balance.go:1547-1594 | the accumulation loop is the replay of the rows |
| `History.ReplayPermuted` | database/balance.go:1522-1544 | the order of the rows does not matter |
| `History.MostRecentSnapshot` | database/balance.go:1437-1494 | finds a latest snapshot not after the target, or there is none |
| `History.GetBalanceAtTime` | database/balance.go:1610-1707 | gives the from-source or the from-snapshot totals for rows in any order, and the two error cases exactly |
| `History.SourceThroughSnapshot` | database/balance.go:1498-1519 | from-source totals are the totals at the snapshot time plus what came after |
| `History.PathsAgree` | database/balance.go:1656-1681 | both paths agree if and only if the snapshot equals the replay up to its own time or an amount after it is unreadable |
| `History.FaithfulSnapshotAgrees` | database/balance.go:1437-1519 | with a faithful snapshot both paths agree also on unreadable amounts |
| `History.BackdatedEntryDiverges` | database/balance.go:1437-1519 | an entry dated before a faithful snapshot makes the paths differ from then on |
| `Allocation.LargestIsUnique` | model/transaction.go:270-280 | the largest amount with the smallest identifier is unique, so no iteration order can matter |
| `Allocation.SharesBelowTarget` | model/transaction.go:225-231 | dropping shares under one minor unit never exceeds what the percentages are worth |
| `Allocation.AdjustedReachesTarget` | model/transaction.go:246-267 | the adjustment takes nothing away and reaches the exact worth of the percentages as soon as one share counts |
| `Allocation.ExactSum` | model/transaction.go:283-309 | the exact amounts use up the total except for what no part asks for |
| `Allocation.UnclaimedWhen` | model/transaction.go:311-335 | nothing is unclaimed if and only if there is a "left" part or the parts add up to the total and some percentage is worth a minor unit |
| `Allocation.FullPercentagesClaimAll` | model/transaction.go:237-243 | percentages totalling 100 with one share of a minor unit claim the whole total |
| `Allocation.ResidueBound` | model/transaction.go:311-335 | the final correction is the unclaimed amount plus less than one minor unit per leg; with everything claimed it lies in [0, n) |
| `Allocation.UnclaimedGoesToLargest` | model/transaction.go:311-335 | a single fixed part of one unit is given any whole total, so the correction has no bound of its own |
| `Allocation.SplitConserves` | model/transaction.go:341-422 | exactly the requested identifiers, none negative, summing to the total |
| `Allocation.FloorOfWorth` | model/transaction.go:283-335 | every leg not chosen by an adjustment gets the floor of its exact worth, and the chosen ones get no less |
| `SplitText.PrintedAmountIsPart` | model/transaction.go:178-203 | a fixed part written as a printed amount is worth exactly that amount, at every scale whose expansion ends |
| `SplitText.WholeUnitsArePart` | model/transaction.go:178-203 | minor units written out are worth themselves; a negative number is refused |
| `SplitText.WholePercentIsPart` | model/transaction.go:206-223 | a whole percentage is read as its number |
| `Split.SplitOrderIndependent` | model/transaction.go:155-175 | permuting the list changes neither success nor any part |
| `Split.AddUp` | model/transaction.go:253-256 | the sum of a map in any iteration order |
| `Split.FindLargest` | model/transaction.go:270-280 | the unique largest entry in any iteration order |
| `Split.DistributionState.ProcessFixedDistributions` | model/transaction.go:155-175 | succeeds exactly when all fixed amounts can be read and together fit the total; collects them and what is left |
| `Split.DistributionState.ProcessPercentageDistributions` | model/transaction.go:206-234 | succeeds exactly when all percentages can be read; collects shares and their total rate |
| `Split.DistributionState.AdjustPercentageAmounts` | model/transaction.go:246-267 | the shares become the adjusted shares |
| `Split.DistributionState.CombineDistributions` | model/transaction.go:283-292 | the result holds the floors of the exact amounts and what is left is the exact rest |
| `Split.DistributionState.ProcessLeftDistribution` | model/transaction.go:295-309 | the one "left" part gets the floor of the rest; the error branch is never taken |
| `Split.DistributionState.BalanceDistributions` | model/transaction.go:312-335 | the difference to the total goes to the unique largest allocation |
| `Split.CheckDistributions` | model/transaction.go:359-375 | accepts exactly lists with distinct non-empty identifiers, one form each and at most one "left" |
| `Split.HandleZeroAmount` | model/transaction.go:425-431 | a zero for every identifier |
| `Split.CalculateDistributionsPrecise` | model/transaction.go:341-422 | succeeds exactly when the list is well formed and its parts can be paid, with the allocation of its parts |
| `Split.LegsAddUp` | model/transaction.go:466-512 | legs in caller order have the sum of the allocation |
| `Split.Transaction.EmitLegs` | model/transaction.go:466-512 | one leg per distribution in caller order with its own amount, decimal text, reference and parent, hashed under the reference and parties of the split transaction; each distribution gets the ID of its own leg |
| `Split.Transaction.SplitTransactionPrecise` | model/transaction.go:434-518 | succeeds exactly when the split side can be split; the legs sum to the amount, and a refused split changes nothing |
| `Canonical.WriteFields` | model/chain.go:104-133 | the buffer is the length-delimited encoding of the fields |
| `Canonical.CanonicalChainV2` | model/chain.go:104-118 | produces the version 2 encoding of the previous hash and the row |
| `Canonical.CanonicalChainV3` | model/chain.go:122-133 | produces the version 3 encoding of the previous hash and the row |
| `Canonical.EncodeInjective` | model/chain.go:104-133 | an encoding determines its fields and their number |
| `Canonical.V2Injective` | model/chain.go:104-118 | version 2 determines the previous hash and every field it seals |
| `Canonical.V3Injective` | model/chain.go:122-133 | version 3 determines the previous hash and the whole row |
| `Canonical.V2IsNotV3` | model/chain.go:104-133 | no version 2 encoding is a version 3 encoding |
| `Canonical.V1IsNotV2OrV3` | model/chain.go:63-78 | no version 1 encoding on the genesis value or a hexadecimal hash is a version 2 or 3 encoding |
| `Canonical.V1DeterminesIff` | model/chain.go:63-78 | version 1 determines the fields of a row, against every other row, if and only if none contains the separator |
| `Canonical.V1Ambiguous` | model/chain.go:63-78 | whatever field contains a separator, another row with the same time has the same version 1 encoding |
| `Chain.ChainStore.LinkBatch` | database/chain.go:54-139 | hashes the batch onto the head: each link is the one of its position |
| `Chain.ChainStore.WriteLinks` | database/chain.go:54-139 | writes the links and the due checkpoints, or reports a checkpoint key that is taken |
| `Chain.ChainStore.ChainPendingTransactions` | database/chain.go:41-139 | seals a batch as a whole or changes nothing |
| `Chain.CheckpointsNeverCollide` | database/chain.go:54-139 | on chained data no batch writes an existing checkpoint |
| `Chain.SealKeepsChained` | database/chain.go:54-139 | sealing extends the sealed log by exactly the rows of the batch, in order |
| `Chain.ApplyKeepsChained` | database/chain.go:41-139 | arrivals and batches keep the chain and every earlier checkpoint |
| `Chain.RunKeepsChained` | database/chain.go:41-139 | after any arrivals and batches of any sizes and cutoffs the data is a chain over the rows sealed so far, with every earlier checkpoint |
| `Chain.BatchSplits` | database/chain.go:41-139 | the first part of a batch is the batch of the smaller size and the rest is the next batch |
| `Chain.SplitSealsTheSame` | database/chain.go:54-139 | sealing in two batches instead of one changes nothing but one checkpoint at the seam |
| `Chain.SplitManyWays` | database/chain.go:41-139 | sealing a batch in any number of parts, as steps of a run, changes nothing but a checkpoint at each seam |
| `Audit.ReadRoots` | database/chain.go:365-381 | collects the checkpoint heads by sequence |
| `Audit.CheckAnchors` | database/chain.go:232-359 | reports nothing exactly when every anchor is accepted |
| `Audit.ReplayLinks` | database/chain.go:258-320 | reports nothing exactly when every row is intact; strikes off the checkpoints it passed |
| `Audit.CheckCheckpoints` | database/chain.go:258-320 | reports nothing exactly when every checkpoint was passed and counts its position |
| `Audit.VerifyChainSnapshotWithAnchors` | database/chain.go:232-359 | reports no tampering if and only if every commitment in the snapshot agrees with every other and with the anchors |
| `Audit.NoGaps` | database/chain.go:258-320 | sequences are 1 to n without a gap |
| `Audit.ListingIsLog` | database/chain.go:258-320 | the listing of sealed rows is the sealed log |
| `Audit.SealedDataVerifies` | database/chain.go:232-359 | unchanged sealed data verifies against any checkpoints exported from it |
| `Audit.SealThenVerify` | database/chain.go:383-385 | after any run the verifier accepts the data with every checkpoint exported at any earlier moment |
| `Audit.SameHashSameRow` | model/chain.go:136-149 | a stored hash equal to a version 3 hash pins down the row and its previous hash, or two byte strings collide |
| `Audit.AnchoredAudit` | database/chain.go:258-320 | if no tampering is reported and an anchor with the head of a sealed log is accepted, the first rows are exactly that log, all version 3, or two different byte strings with the same hash are exhibited |
| `Delegation.KeyAncestry` | database/policy_delegation.go:37-60 | the full path to the root, or an error exactly when there is none of at most 64 keys |
| `Delegation.PathIsUnique` | database/policy_delegation.go:37-60 | a key has at most one path to a root |
| `Delegation.PathNeverRepeats` | database/policy_delegation.go:37-60 | no key occurs twice on a path to a root |
| `Delegation.CycleHasNoPath` | database/policy_delegation.go:37-60 | a key on a cycle of parents has no path, so its ancestry is an error |
| `Delegation.IndependentApprover` | database/policy_delegation.go:111-136 | allows exactly the master and keys that are neither the initiator nor a descendant of it and, in its tree, are the root |
| `Delegation.MutualApproversAreStrangers` | database/policy_delegation.go:102-136 | two keys may approve each other only across trees |
| `Delegation.RelativesApproveOnlyAsRoot` | database/policy_delegation.go:102-136 | an approver sharing an ancestor with the initiator is that ancestor and a root |
| `Delegation.RegisterKeeps` | internal/core/sql/1791504003.sql:17-33 | registering a key keeps every ancestry readable and unchanged |
| `Delegation.AncestryNeverChanges` | internal/core/sql/1791504003.sql:17-33 | however keys are registered, every ancestry can be read and never changes |
| `Delegation.IndependenceNeverChanges` | database/policy_delegation.go:35-36 | delegating more keys neither creates nor removes independence between registered keys |
| `Delegation.StaysIndependentIff` | database/policy_delegation.go:35-36 | independence survives all later registrations if and only if it holds, the approver is registered, and so is the requester unless the approver is a root |
| `Delegation.UnknownApproverLoses` | database/policy_delegation.go:111-136 | an unknown approver is independent of every registered requester and can be registered below the root of it |
| `Delegation.UnknownRequesterLoses` | database/policy_delegation.go:111-136 | a registered approver that is no root is independent of every unknown requester, which can be registered below the same root |
| `Delegation.BothUnknownLose` | database/policy_delegation.go:111-136 | two different unknown keys are independent, and the approver can be registered below the requester |
| `Locks.LockOrder` | database/policy_delegation.go:67-68 | a sorted copy with the same keys |
| `Locks.LockPolicyAncestry` | database/policy_delegation.go:62-77 | locks exactly the keys of the ancestry in ascending order, or none when the ancestry is an error |
| `Locks.RunKeepsExclusive` | database/policy_delegation.go:62-77 | no advisory lock is held by two operations in any reachable state |
| `Locks.LockedSectionsNeverOverlap` | database/policy_delegation.go:62-77 | operations that share an ancestor are never in their locked sections together |
| `Locks.WaitsAscend` | database/policy_delegation.go:69-75 | whoever is waited for waits for a later key, when keys sharing a lock are contiguous |
| `Locks.NoCircularWait` | database/policy_delegation.go:69-75 | then no reachable state has a circular wait |
| `Locks.SharedLockDeadlocks` | database/policy_delegation.go:69-75 | two children of one parent reach a circular wait when they share a lock and the parent, with another lock, sorts between them |
| `Locks.NeverCircularIff` | database/policy_delegation.go:69-75 | no reachable state has a circular wait if and only if keys sharing a lock are contiguous |
| `Locks.ExclusiveIsReached` | database/policy_delegation.go:62-77 | every state in which no lock has two holders is reached by some run |
| `Locks.NeverCircularOverIff` | database/policy_delegation.go:69-75 | over any set of lock lists no run reaches a circular wait if and only if no operations can hold disjoint first parts of their lists and each need a lock of the next in a ring |
| `Locks.TableNeverCircularIff` | database/policy_delegation.go:62-77 | on a delegation table that holds with its sorted ancestries as the lists |
| `Locks.RootsNeverCircular` | database/policy_delegation.go:62-77 | keys without delegation never wait in a circle, however they share locks |
| `Locks.SomeoneProceeds` | database/policy_delegation.go:62-77 | while operations run, one of them can take its next lock or has them all |
| `PolicyRules.RuleKeyInjective` | internal/policy/validation.go:61-63 | a rule key determines currency and precision |
| `PolicyRules.IntegerRoundTrip` | internal/policy/validation.go:28-34 | a policy amount is accepted exactly in its canonical decimal form |
| `PolicyRules.Minimum` | internal/policy/inheritance.go:25-38 | a value is within the smaller limit exactly when it is within both, a missing limit being none |
| `PolicyRules.IntersectIds` | internal/policy/inheritance.go:40-54 | an ID is allowed by the intersection exactly when both lists allow it; an empty intersection allows none |
| `PolicyRules.MeetRules` | internal/policy/inheritance.go:78-90 | exactly the rules both lists have, with the smaller of each pair of limits |
| `PolicyRules.MeetPolicy` | internal/policy/inheritance.go:74-95 | admits exactly what both policies admit |
| `PolicyRules.Intersect` | internal/policy/inheritance.go:58-101 | the policy in force admits a leg, and is within a limit, exactly when every ancestor policy on its own is; it names the other keys it comes from, in order |
| `Budgets.UsedAfterCharge` | database/policy.go:243-273 | every payer is charged the total of every rule and no other bucket changes |
| `Budgets.NewBindingTotals` | database/policy.go:288-293 | the bindings of an admission add up to its per-rule totals |
| `Budgets.AdmitKeeps` | database/policy.go:275-295 | an admission keeps budget accounting, sound rows and one admission per identity |
| `Budgets.GiveBackKeeps` | database/policy.go:451-463 | a release of at most the reserved amount keeps budget accounting |
| `Budgets.GivenBackUsed` | internal/core/sql/1791504003.sql:52-66 | exactly the budgets the admission charged under the rule get the difference back |
| `Budgets.DecisionKeeps` | database/policy.go:396-399 | a decision keeps budget accounting |
| `PolicyRuns.RunKeeps` | database/policy.go:144-295 | the invariant holds after every run of admissions, releases and decisions |
| `PolicyRuns.BudgetAccounting` | database/policy.go:243-293 | in every reachable state used equals the sum over charged admissions of amount minus released, and is never negative |
| `PolicyRuns.AdmittedWithinDaily` | database/policy.go:243-273 | right after an admission every charged ancestor is within its daily limit |
| `PolicyRuns.RunKeepsRecords` | database/policy.go:368-405 | no run changes an admission that left pending, removes a row or lowers a release |
| `PolicyRuns.DecisionIsFinal` | database/policy.go:390-395 | a decision never changes once it leaves pending |
| `PolicyRuns.SpentStaysSpent` | database/policy.go:162-184 | a rejected or partly released admission stays so |
| `PolicyRuns.ChargedOnce` | database/policy.go:162-184 | after an admission no later request for its key and identity ever changes anything |
| `PolicyRuns.ApprovalsAreIndependent` | database/policy.go:368-405 | in every reachable state each approval came from the master or from a key independent of the requester |
| `PolicyRuns.ActLastsIff` | database/policy.go:368-405 | a step keeps every approval independent for good if and only if it is no approval by a key whose independence can be lost |
| `PolicyRuns.ApprovalsLastIff` | database/policy.go:368-405 | with keys registered at any time, approvals stay independent throughout a run and ever after if and only if each, when given, was by the master, by a registered root, or by a registered key on the request of a registered key |
| `PolicyRuns.ApprovalsStayIndependent` | database/policy_delegation.go:35-36 | from the empty store, when requests and decisions come from registered keys only, every approval is by the master or by a key that stays independent of the requester |
| `PolicyRuns.SystemRejectsOnlyExhausted` | database/policy.go:464-464 | a release rejects only a pending admission all of whose legs are fully released |
| `PolicyRuns.ReleasesAreRunningMaximum` | database/policy.go:443-463 | over every run, whatever happens in between, a binding has given back the running maximum of what its releases asked for |
| `PolicyStore.AddUpLegs` | database/policy.go:200-218 | succeeds exactly when every amount is canonical and the policy in force admits every leg; gives the per-rule totals |
| `PolicyStore.CheckTotals` | database/policy.go:227-242 | transaction limits hold for all totals, and the decision is pending exactly when some total is above an approval threshold |
| `PolicyStore.ChargeAncestor` | database/policy.go:249-273 | charges all totals to one ancestor exactly when none passes its daily limit |
| `PolicyStore.ChargeAncestors` | database/policy.go:243-274 | charges every ancestor, or none when one refuses |
| `PolicyStore.WriteAncestorBudgets` | database/policy.go:280-287 | one budget row per rule for one ancestor |
| `PolicyStore.WriteBudgets` | database/policy.go:280-287 | one budget row per payer and rule with its total |
| `PolicyStore.WriteBindings` | database/policy.go:288-293 | one binding per leg exactly when references and transaction IDs are new and distinct |
| `PolicyStore.AdmitNew` | database/policy.go:185-295 | admits exactly when every ancestor policy on its own allows the whole request; the new tables are the specified ones |
| `PolicyStore.ReplayOrAdmit` | database/policy.go:162-295 | a replay answers from the stored admission and changes nothing; anything else is admitted as a whole or not at all |
| `PolicyStore.ReplayMeansSameLegs` | database/policy.go:117-129 | in every reachable state a replay is answered exactly for the stored legs, transaction IDs aside, and unless spent; or the fingerprint collides |
| `PolicyStore.Datasource.AncestorPolicies` | database/policy_delegation.go:79-100 | the enabled policies of the ancestry, in order, under their own keys |
| `PolicyStore.Datasource.AdmitPolicy` | database/policy.go:144-295 | the outcome of a replay or an admission for the ancestry of the key; denied without change when the ancestry is an error |
| `PolicyStore.FindReference` | database/policy.go:297-310 | the binding of the transaction or of its nearest bound ancestor among the first seventeen |
| `PolicyFamily.ReadFamily` | internal/core/sql/1791504002.sql:15-25 | the recursive query ends and finds the least set with the rows of the reference or its queued copy and every child that moves the same money and no other binding owns |
| `PolicyFamily.ReleasableCapacity` | internal/core/sql/1791504002.sql:14-29 | all of the reservation when a row of the reference itself was rejected, otherwise the voided units of its rows, at most all of it |
| `PolicyFamily.FamilyGrows` | internal/core/sql/1791504002.sql:15-25 | new journal rows never take a row away from a reservation |
| `PolicyFamily.ReleasableGrows` | internal/core/sql/1791504002.sql:14-29 | new journal rows never lower what a reservation can release |
| `PolicyFamily.ReleaseSettles` | internal/core/sql/1791504003.sql:90-95 | a release leaves recorded exactly what the journal frees by then, if no more was recorded before |
| `PolicyStore.ReturnToBudgets` | internal/core/sql/1791504003.sql:52-66 | gives the difference back to every budget row of the admission under the rule |
| `PolicyStore.ReleaseOn` | database/policy.go:437-468 | gives back the difference, records the release and rejects an exhausted pending admission |
| `PolicyStore.Datasource.ReleasePolicyLeg` | database/policy.go:424-469 | releases what the journal frees of the nearest binding of the transaction, or changes nothing when there is none |
| `PolicyStore.Datasource.ReleaseTerminalReservation` | internal/core/sql/1791504003.sql:68-102 | the same release when the inserted row is a void or a rejection, which also rejects when nothing is left to give back; any other row changes nothing |
| `PolicyStore.Datasource.DecidePolicyApproval` | database/policy.go:368-405 | decides exactly a pending admission by an entitled principal; repeating the same decision returns it, any other is refused |
| `PolicyStore.Datasource.CheckPolicyCommit` | database/policy.go:335-349 | passes exactly when no binding is found or its admission is approved or needs no approval |
| `PolicyStore.CapacityOf` | database/policy.go:486-531 | the least any ancestor has to spare, the usage of the first ancestor with the smallest limit or, without a limit, of the last ancestor, and a line with usage and limit per ancestor |
| `PolicyStore.CapacityAgrees` | database/policy.go:486-531 | remaining and the daily limits of all ancestors agree on a total of one rule if and only if it is positive or no ancestor is over its limit |
| `PolicyStore.CapacityDecides` | database/policy.go:243-273 | a request that only daily limits could refuse, with a total of one rule, is admitted exactly when the total is within the remaining capacity and is positive or finds no ancestor over its limit |
| `PolicyStore.ZeroTotalRefused` | database/policy.go:243-273 | a run after which, the limit lowered, a request for zero units that nothing else could refuse is refused although zero remains |
| `PolicyStore.Datasource.PolicyCapacity` | database/policy.go:471-533 | lists exactly the rules every ancestor has, each with the least any ancestor has to spare, the usage of the narrowest and the budget of every ancestor |

## Left out

- `Datasource.UpdateBalance` (database/balance.go:1074-1105) writes without a version check, so serializability is stated over the versioned writers only.
- Source and destination are distinct balances; the same balance on both sides is rejected before the ledger is reached.
- Float fields: `Amount` is an exact decimal or out of range, also in the text a leg's hash covers, precisions are integers, overdraft limits are non-negative reals.
- SHA-256, JSON text, advisory lock numbers and fresh identifiers are parameters; nothing is assumed of hashes except lower-case hexadecimal output where stated. Timestamps in the chain are non-empty byte strings.
- Failures of single database statements are not modelled; the outcome of a transaction's last writes and its commit is a parameter of `Store`.
- Who decided an admission is a value; its stored text, in which a key named "master" would read like the master, is not modelled.
- The journal-evidence query of the chain verifier is a given list of extra issues.
- Which error is returned: contracts of `Split` and `PolicyStore` state when an operation succeeds and what it computes, and name errors only where the source promises them.
- Split.CalculateDistributionsPrecise: does not state which of several possible errors is reported, because that depends on the order of the list.
- PolicyStore.AdmitNew: does not state which of several possible refusals is reported, because the loops over rules may meet any of them first.
- PolicyStore.ChargeAncestors: takes ancestors and rules in any order; the sorted order of the row locks is not modelled.
- Policy management (`PutKeyPolicy`, `DeleteKeyPolicy`, `ValidateNarrowing`), `VerifyPolicyLeg` and the posting trigger are not modelled; a run may judge each request by different policies.
- PolicyFamily.ReleasableGrows: the bindings stay the same while rows are added; a binding is stored before any row of its transaction.
- Inflight actions on a whole group of legs, bulk updates and expiry: they repeat the modelled commands per leg.
- The lineage outbox, rates, balance monitors, identities, accounts, reconciliation, search, HTTP handlers, queues and the command line are not modelled.

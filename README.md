# Simple auction: off-chain bookkeeping, modelled in Dafny

The service deploys one `SimpleAuction` smart contract per auction. It
dry-runs (`provider.call`, which broadcasts nothing) the bids and withdrawals
that callers have signed, records them in its mirror, and submits the end of
an auction.
Beside the ledger it keeps a relational mirror: an `auction` table of
`{id, address, endTime, ended, highestBid}` and a `bid` table of
`{id, auctionId, ownerId, address, amount, returned}`. This project models the
class `Auction` of `src/auction.ts`:

- the shape checks a signed bid or withdrawal transaction must pass;
- the mirror tables and how `deploy`, `bid`, `withdraw` and `end` change them;
- the read-only `status`, `history` and the local part of `rawWithdraw`;
- the order in which each operation raises its `ApiError` (404, 409, 400,
  403, 422) before it consults the ledger.

The ledger is not modelled. Everything it answers is an input:

- the contract address the client resolves for the auction;
- whether `provider.call` reverts;
- whether `status`'s reads of the contract throw;
- the boolean the `withdraw` result decodes to;
- the contract's end time in seconds and its highest bid;
- the hash of the submitted `auctionEnd` transaction;
- the current time `now`, in milliseconds.

Modules:

- `Errors` (errors.dfy): `Result`, `Option`, and the source's `ApiError` statuses
  and messages. `LedgerError` stands for an exception thrown by the ledger client,
  `StoreError` for one thrown by the database client.
- `Transactions` (transactions.dfy): the decoded transaction `Tx`, the
  case-insensitive selector test, and the bid and withdrawal shape predicates.
- `Mirror` (mirror.dfy): the table rows and the store value `Store`. It holds the
  invariant `Valid` and the queries `FindBid` (the `findUnique` on a bid) and
  `History`, with lemmas about them.
- `Coordinator` (coordinator.dfy): the lookup `FindAuction`, the read-only
  `StatusOf` and `RawWithdrawCheck`, which return only a `Result`, and
  `deploy`, `bid`, `withdraw` and `end` as pure steps
  `Store -> (Result, Store)`, whose contracts state the error order and the
  effect. It also holds lemmas that each step keeps `Valid`, and lemmas that
  relate several calls (double withdrawal, history after a bid or a withdrawal,
  runs of operations).
- `AuctionService` (auction.dfy): class `Auction`. Its fields are the two tables
  (auctions as a map by id, bids as a sequence in insertion order) and the next
  ids. `Deploy`, `Bid`, `Withdraw` and `End` update the fields in place, are
  proved equal to their `Coordinator` step, and keep `Valid`. The read-only
  methods `Contract`, `Status`, `History` and `RawWithdraw` change nothing and
  return the matching function of the current tables (`FindAuction`,
  `StatusOf`, `Mirror.History`, `RawWithdrawCheck`).

The mirror invariant `Mirror.Valid` says:

- every auction id is below the next auction id, and every bid id is below the next bid id;
- every bid belongs to an existing auction and has a positive amount at most that auction's `highestBid`;
- bid ids grow in table order;
- later bids on one auction are strictly larger;
- an auction's `highestBid` is the amount of its most recent bid, or 0 if it has none.

Selector constants: `0x1998aeef` for `bid()` and `0x3ccfd60b` for `withdraw()`.
These are the four-byte function selectors of the contract's `bid()` and
`withdraw()`. The source reads them from the contract ABI.

The contract address the checks compare `tx.to` against is an input. In the
source it is `getAddress()` of the client built from the row's stored
`address` (src/auction.ts:238-240, 104, 174). The model does not tie that
input to `AuctionRow.address`; every property here holds for any address.

Several lemmas (for instance the `...KeepsValid` and `...PrecedesLedger`
lemmas) carry `assert` and `forall` steps that Dafny could find on its own.
They are kept as documentation of why the lemma holds.

## Model

| member | source | states |
|---|---|---|
| `Transactions.SelectorMatches` | src/auction.ts:105 | When the lower-cased selector equals the lower-cased first ten characters of the call data, the selector is at most ten characters long, no longer than the data, and each of its characters equals the data character at the same place after lower-casing. |
| `Transactions.BidShapeOk` | src/auction.ts:101-106 | A bid transaction has the right shape exactly when it is signed, its value is not 0, its target is the contract's address, its call data has at least ten characters, and those start with `0x1998aeef` up to case. |
| `Transactions.WithdrawShapeOk` | src/auction.ts:171-176 | A withdrawal transaction has the right shape exactly when it is signed, its value is 0, its target is the contract's address, its call data has at least ten characters, and those start with `0x3ccfd60b` up to case. |
| `Transactions.SelectorMatchesIff` | src/auction.ts:105 | The selector test holds exactly when the selector is as long as the first ten characters of the call data and matches them character by character, ignoring case. Both directions are proved against a reference case-insensitive comparison. |
| `Transactions.ShortDataRejected` | src/auction.ts:175 | Call data shorter than ten characters never passes the bid or the withdraw selector test. |
| `Transactions.SelectorIgnoresDataCase` | src/auction.ts:105 | Lower-casing the call data never changes the selector verdict. |
| `Transactions.SelectorsExclusive` | src/auction.ts:169-175 | No call data passes both the bid test and the withdraw test. |
| `Coordinator.FindAuction` | src/auction.ts:229-235 | The lookup succeeds exactly when the id is in the auction table and returns that row. Otherwise it fails with 404 "Contract not found". |
| `Coordinator.DeployStep` | src/auction.ts:40-51 | When `endSeconds * 1000` is past the largest `Date` (8.64e15 ms), `new Date` is invalid and the insert throws: a store error, with the store unchanged although the contract is deployed. Otherwise, and exactly then, deploy adds one row under the next id (the given address, `endTime = endSeconds * 1000`, `ended = false`, `highestBid = 0`) and returns that id. It leaves bids alone and, in a valid store, leaves every existing auction unchanged. |
| `Coordinator.DeployedAuctionIsFresh` | src/auction.ts:42-51 | In a valid store, when deploy succeeds, the new id was not in use. The new auction has an empty history, and its status shows `ended == false`. |
| `Coordinator.StatusOf` | src/auction.ts:62-69 | Status fails with 404 when the auction is missing, then with a ledger error when a contract read throws; it succeeds exactly otherwise. On success `ended` comes from the mirror row, and the end time (seconds times 1000) and the highest bid come from the contract. |
| `Mirror.History` | src/auction.ts:72-82 | The result holds a view of a bid exactly when that bid is on the auction and not returned. Each view is that bid's (address, amount), with no owner. |
| `Mirror.HistoryAppend` | src/auction.ts:74-81 | History keeps table order: the history of two runs of rows is the first run's history followed by the second's. |
| `Mirror.HistoryOfUnknownAuction` | src/auction.ts:72-77 | In a valid store, history does not fail for a missing auction; it returns an empty list. |
| `Coordinator.BidStep` | src/auction.ts:92-130 | Bid checks in order: missing auction gives 404, a bad shape gives 400, and `value <= highestBid` gives 422, then a reverting dry run gives a ledger error, all with the store unchanged. It succeeds exactly when every check passes and the dry run does not revert. Success appends exactly the row `{nextBidId, id, userId, tx.from, tx.value, returned false}`, raises that auction's `highestBid` strictly to `tx.value`, and changes no other auction. |
| `Coordinator.BidRejectionPrecedesLedger` | src/auction.ts:97-111 | A bid rejected with an `ApiError` is rejected the same way whatever the dry run would answer. |
| `Coordinator.HistoryAfterBid` | src/auction.ts:115-129 | An accepted bid's (sender, value) joins the end of its auction's history. Every other auction's history is unchanged. |
| `Coordinator.BidKeepsValid` | src/auction.ts:109-129 | Bid keeps the mirror invariant, including "`highestBid` is the amount of the latest bid" and "later bids on an auction are strictly larger". |
| `Mirror.LastBidAmountIsLatest` | src/auction.ts:125-128 | The amount the invariant ties `highestBid` to is the amount of the auction's bid that has no later bid on the same auction. |
| `Mirror.SetReturned` | src/auction.ts:190-195 | Writing `returned` to the row at one position keeps every row's other columns, gives that row the new `returned`, and leaves every other row as it was. |
| `Mirror.FindBid` | src/auction.ts:158-163 | The bid lookup finds the first row with that id on that auction, or reports that no such row exists. |
| `Coordinator.RawWithdrawCheck` | src/auction.ts:132-142 | A missing bid gives 404, then a returned bid gives 409, then a missing auction gives 404. Otherwise the check passes. |
| `Coordinator.RawWithdrawAgreesWithWithdraw` | src/auction.ts:132-167 | When `rawWithdraw`'s checks fail, `withdraw` fails with the same error whatever the transaction and the ledger say. When they pass, `withdraw` never fails at those lookups. |
| `Coordinator.WithdrawStep` | src/auction.ts:147-198 | Withdraw gives 404 for a missing bid, then 409 for a returned bid, then 404 for a missing auction, then 400 for a bad shape (signed, value 0, target, withdraw selector), then 403 when `tx.from` is not the bid's address or the caller is not its owner, then a reverting dry run gives a ledger error. None of the `ApiError`s depends on the ledger, and no rejection changes the store. On success it returns the decoded outcome and sets exactly that bid's `returned` to it. A `false` outcome leaves the store unchanged. |
| `Coordinator.WithdrawRejectionPrecedesLedger` | src/auction.ts:158-182 | A withdrawal rejected with an `ApiError` is rejected the same way whatever the dry run and its decoded result would be. |
| `Coordinator.WithdrawOnUnknownAuction` | src/auction.ts:158-163 | In a valid store, withdraw and rawWithdraw on a missing auction fail at the bid lookup with 404 "bid not found" and change nothing. |
| `Coordinator.WithdrawTwiceRejected` | src/auction.ts:164-166 | After a withdrawal that returned `true`, a second withdrawal of that bid fails with 409 and changes nothing, whatever its transaction and the ledger say. |
| `Coordinator.HistoryAfterWithdraw` | src/auction.ts:190-195 | A withdrawal that returned `true` removes exactly that bid from its auction's history. The rows before and after it stay in order. |
| `Coordinator.WithdrawKeepsValid` | src/auction.ts:190-195 | Withdraw keeps the mirror invariant. |
| `Coordinator.EndStep` | src/auction.ts:200-215 | End gives 404 for a missing auction, then 422 when `now < endTime`, then 422 when the mirror says ended, then a failed submission gives a ledger error, all with the store unchanged. It succeeds exactly when those pass and the submission does not fail. On success it returns the hash. The auction's row is either unchanged or has `ended` set to true, and nothing else changes. |
| `Coordinator.EndRejectionPrecedesLedger` | src/auction.ts:200-208 | An end rejected with an `ApiError` is rejected the same way whatever the ledger and the mirror write would do. |
| `Coordinator.EndKeepsValid` | src/auction.ts:211-212 | End keeps the mirror invariant. |
| `Coordinator.DeployKeepsValid` | src/auction.ts:42-49 | Deploy keeps the mirror invariant: the new id is fresh and no bid refers to it. |
| `Coordinator.RunKeepsValidAndGrows` | src/auction.ts:29-215 | Over any sequence of deploy, bid, withdraw and end calls from a valid store, the store stays valid. No row disappears. An auction's address and end time never change and its highest bid never goes down. `ended` and `returned` never go from true back to false. |
| `AuctionService.Auction.Contract` | src/auction.ts:229-244 | Returns what `FindAuction` gives on the current tables. |
| `AuctionService.Auction.Deploy` | src/auction.ts:29-52 | Inserts the row in place, or fails with a store error past the `Date` range. The outcome and the new tables are those of `DeployStep`, and the invariant is kept. |
| `AuctionService.Auction.Status` | src/auction.ts:62-70 | Returns `StatusOf` on the current tables: 404 for a missing auction, a ledger error when a contract read throws, otherwise the chain values with the mirror's `ended`. |
| `AuctionService.Auction.History` | src/auction.ts:72-82 | Returns `History` of the current bid table. |
| `AuctionService.Auction.Bid` | src/auction.ts:92-130 | Updates the tables in place. The outcome and the new tables are those of `BidStep`, and the invariant is kept. |
| `AuctionService.Auction.RawWithdraw` | src/auction.ts:132-142 | Returns `RawWithdrawCheck` on the current tables. |
| `AuctionService.Auction.Withdraw` | src/auction.ts:147-198 | Updates the bid row in place. The outcome and the new tables are those of `WithdrawStep`, and the invariant is kept. |
| `AuctionService.Auction.End` | src/auction.ts:200-215 | The outcome and the new tables are those of `EndStep`, and the invariant is kept. |

## Left out

- Ledger calls are oracle inputs: contract deployment, `getContractAt`,
  `getAddress`, `provider.call`, `decodeFunctionResult`, `auctionEnd`, and
  reading `auctionEndTime` and `highestBid`. They are foreign library and
  network I/O. Signature recovery behind `isSigned()` and `tx.from` is
  also an input: `Tx` holds the decoded fields.
- Failures of the deploy-time ledger calls are not modelled. They throw before
  anything is written, so they would leave the store unchanged.
- `decodeFunctionResult` failing on malformed output is not modelled.
- `formatEther` and `parseEther` are not modelled: amounts stay integers in wei.
- `Number(...)` on the contract's end time would lose precision above 2^53,
  but every end time that big is already past the `Date` range, where
  `DeployStep` fails; below it the conversion and `end * 1000` are exact, so
  the model multiplies exact integers.
- `rawBid` and the `rawWithdraw` template are transaction serialisation done by
  the ledger library. Only `rawWithdraw`'s local checks are modelled.
  `rawBid`'s only local step is the `contract(id)` lookup, which
  `FindAuction` models. The source's `rawWithdraw` builds a `bid` template
  rather than a `withdraw` one; the model does not reach that far.
- The `sign` helper is not modelled: it is wallet signing, used only in tests.
- `toLowerCase` is modelled for ASCII letters only. Selectors and hex call data
  are ASCII.
- Concurrency is not modelled: the model is sequential. This leaves out the
  race between bids, the select-then-update race in `withdraw`, and the
  divergence between ledger and mirror when a write fails after a ledger call.
- History order: the source's `findMany` has no `orderBy`, so the database
  picks the order. The model lists bids in insertion order.
- Coordinator.EndStep: in the source, `end`'s `auction.update` setting `ended` is
  neither awaited nor chained, so the model takes as an input whether that write
  lands. Its contract allows both outcomes, and no property here depends on the
  write. In particular, "a second `end` fails with 422" is not claimed; it holds
  only if the write landed. A query client that runs queries only when they are
  awaited would never perform this write.
- Reconciliation between ledger and mirror: the source has no code for it. The
  comment at src/auction.ts:59-60 only suggests a job that compares them.
- `withdraw` checks the transaction's shape (400) before ownership (403),
  src/auction.ts:171-182, and the model keeps that order.
- `ethers.Transaction.from(signedTx)` throws on a string that does not decode
  (src/auction.ts:100, 170); in `withdraw` that happens after the bid and
  auction lookups. The model's `Tx` is always a decoded transaction, so this
  error path is not modelled.
- Amount width: `highestBid: 0n` (src/auction.ts:47) suggests 64-bit signed
  integer columns, so storing a bid of 2^63 wei or more would throw after the
  dry run. The schema is not part of this model; amounts are unbounded `nat`
  and `BidStep` accepts any value above the highest bid.
- The HTTP layer (`src/server/*.ts`), `src/user.ts`, configuration, the
  database client, bootstrap, the deployment script and the contract tests
  are not part of this model. `src/server/auction_handler.ts:33-43` routes the
  withdraw endpoints to the bid handlers; the model follows `Auction.withdraw`
  itself.
- Auction and bid ids are `nat` counters starting at 1. The database schema,
  with its auto-increment, is not part of this model.

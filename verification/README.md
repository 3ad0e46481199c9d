# Bookkeeping core in Dafny

This project models the money-movement core of a Spring/JDBC wallet
bookkeeping service, `com.cubeia.bookkeeping`. The model covers:

- wallets that are created with an initial deposit (a *mint*);
- transfers between wallets;
- an append-only ledger of signed entries, each carrying its wallet's running balance;
- paged history reads.

The three database tables become one immutable `Store`:

- a map from wallet id to wallet;
- the wallet creation order;
- an append-only sequence of transactions;
- an append-only sequence of ledger entries.

Every operation is a pure function from a store to an `Outcome`: the new store
and either a value or a typed error (`SameAccount`, `NotFound(id)`,
`InsufficientFunds`, `Unique`). A failing operation returns the store it was
given, which is how the model reads `@Transactional` rollback. In both transfer
routines every check comes before the first write anyway.

Modules follow the program's classes:

| file | module | what it holds |
|---|---|---|
| domain.dfy | `Domain` | ids (`int` under `<`), amounts (`real`: exact, like `BigDecimal`), wallets, transactions, ledger entries, the store, errors |
| paging.dfy | `Paging` | limit/offset normalisation and the newest-first page shared by the three list reads |
| wallet_repository.dfy | `WalletRepository` | wallet insert (unique id and email), lookup by id and by email, balance adjustment, listing |
| ledger_repository.dfy | `LedgerRepository` | ledger insert and the per-wallet read (which drops the running balance) |
| transaction_repository.dfy | `TransactionRepository` | transaction insert and the per-wallet history: ledger entries joined to their transactions |
| transaction_processor.dfy | `TransactionProcessor` | `createTransaction`: the mint branch, and the transfer branch that locks in canonical order |
| transaction_service.dfy | `TransactionService` | the transfer path the HTTP layer calls; it locks the source only and then checks that the destination exists |
| wallet_service.dfy | `WalletService` | wallet creation (email check, insert, mint), lookup with `NotFound`, balance adjustment |
| validation.dfy | `Validation` | the bean-validation constraints of `TransferInput`, `CreateWalletInput` and `Page`, as sets of violations |
| accounting.dfy | `Accounting` | folds over the store: a wallet's ledger sum and entry count, a transaction's entry sum and count, total balance, total minted |
| invariants.dfy | `Invariants` | the bookkeeping invariant `Valid`, and its preservation by wallet creation and by both transfer paths |
| variants.dfy | `Variants` | the two transfer routines compared |
| history.dfy | `History` | what the history read shows after a mint and after a transfer |
| scenarios.dfy | `Scenarios` | runs of transfers, plus the situations in the repository's integration tests |

`Valid(s)` says:

- every wallet's balance is non-negative and equals the sum of its ledger entries;
- every entry's running balance is its wallet's ledger sum up to and including that entry;
- every entry belongs to an existing wallet and transaction;
- transaction ids are unique;
- every mint has one entry carrying its amount, and every transfer has two entries that sum to zero;
- the total of all balances equals the total ever minted.

The source has two transfer routines. `TransactionController.java:34` calls
`TransactionService.createTransaction`, which locks only the source wallet.
The transfer branch of `TransactionProcessor.createTransaction` locks both
wallets in a fixed order, but nothing in the source calls it: the only caller,
`WalletService.java:34-41`, passes `initial = true` and so takes the mint branch.
The model covers both routines:

- both routines are modelled;
- both are proved to keep `Valid`;
- they succeed on the same inputs and then produce the same store and result;
- they differ only in which error they report when several checks fail (`Variants`).

## Model

| member | source | states |
|---|---|---|
| Paging.NormalizeLimit | src/main/java/com/cubeia/bookkeeping/transaction/TransactionRepository.java:44-46 | the effective limit is at least 1; a positive limit is kept; a missing or non-positive one becomes 10 |
| Paging.NormalizeOffset | src/main/java/com/cubeia/bookkeeping/transaction/TransactionRepository.java:47-49 | the effective offset is non-negative; a non-negative offset is kept; a missing or negative one becomes 0 |
| Paging.NewestFirst | src/main/java/com/cubeia/bookkeeping/transaction/TransactionRepository.java:55 | the rows in reverse insertion order: same length, row i is the i-th newest |
| Paging.Page | src/main/java/com/cubeia/bookkeeping/wallet/WalletRepository.java:43-56 | a page holds min(limit, rows - offset) rows, never more than the limit; row i is the (offset + i)-th newest |
| Paging.PagesAreConsecutive | src/main/java/com/cubeia/bookkeeping/transaction/TransactionRepository.java:55 | a full page of k at offset o, followed by the page at o + k, is the page of 2k at o: paging neither skips nor repeats |
| WalletRepository.CreateWallet | src/main/java/com/cubeia/bookkeeping/wallet/WalletRepository.java:30-41 | fails with Unique exactly when the id or the email is taken, changing nothing; otherwise adds exactly that wallet, returns its own id, and leaves every other wallet, transaction and entry alone |
| WalletRepository.GetWalletById | src/main/java/com/cubeia/bookkeeping/wallet/WalletRepository.java:58-65 | returns the stored wallet exactly when the id is present, and nothing (null) otherwise |
| WalletRepository.RowLockIrrelevant | src/main/java/com/cubeia/bookkeeping/wallet/WalletRepository.java:59-60 | the row-lock flag does not change what the lookup returns |
| WalletRepository.AdjustBalance | src/main/java/com/cubeia/bookkeeping/wallet/WalletRepository.java:67-74 | for an existing wallet, returns the old balance plus the delta, stores it, and changes no other wallet or field |
| WalletRepository.GetWalletByEmail | src/main/java/com/cubeia/bookkeeping/wallet/WalletRepository.java:76-82 | a found wallet is a stored wallet carrying that email, so the email is taken; when every stored wallet is listed in insertion order (as in every store the operations build), nothing is found exactly when no stored wallet carries the email |
| WalletRepository.GetWallets | src/main/java/com/cubeia/bookkeeping/wallet/WalletRepository.java:43-56 | at most `limit` wallets; when every created id has a row, exactly min(limit, wallets - offset) of them, newest first from the offset |
| LedgerRepository.CreateLedgerEntry | src/main/java/com/cubeia/bookkeeping/ledger/LedgerRepository.java:25-34 | appends exactly the given entry; every existing entry and every other table are unchanged |
| LedgerRepository.EntriesOf | src/main/java/com/cubeia/bookkeeping/ledger/LedgerRepository.java:43 | the wallet filter: keeps only entries of that wallet, never more than the ledger holds |
| LedgerRepository.EntriesOfMembers | src/main/java/com/cubeia/bookkeeping/ledger/LedgerRepository.java:43 | an entry is in a wallet's filtered ledger if and only if it is in the ledger and belongs to that wallet |
| LedgerRepository.GetLedgerEntriesByWalletId | src/main/java/com/cubeia/bookkeeping/ledger/LedgerRepository.java:36-50 | only entries of the wallet, at most `limit`; exactly min(limit, entries - offset), newest first from the offset, each without its running balance |
| TransactionRepository.CreateTransaction | src/main/java/com/cubeia/bookkeeping/transaction/TransactionRepository.java:28-40 | appends exactly the given transaction and returns that record's own id; the other tables are unchanged |
| TransactionRepository.FindTransaction | src/main/java/com/cubeia/bookkeeping/transaction/TransactionRepository.java:53 | the join's ON clause: finds a transaction exactly when one with that id exists, and what it finds has that id |
| TransactionRepository.JoinedComplete | src/main/java/com/cubeia/bookkeeping/transaction/TransactionRepository.java:50-55 | when every entry's transaction exists, the join has one row per entry, in order, with the entry's signed amount and running balance and the columns of its transaction |
| TransactionRepository.GetTransactionByWalletId | src/main/java/com/cubeia/bookkeeping/transaction/TransactionRepository.java:42-62 | at most `limit` rows; exactly min(limit, joined rows - offset), the joined rows newest first from the offset |
| TransactionProcessor.LockOrder | src/main/java/com/cubeia/bookkeeping/transaction/TransactionProcessor.java:53-64 | locks exactly the two wallets, the lower id first; the source and destination are recoverable from the plan |
| TransactionProcessor.LockOrderSymmetric | src/main/java/com/cubeia/bookkeeping/transaction/TransactionProcessor.java:52-64 | transfers a to b and b to a lock the same wallet first and the same second; only which one is the source differs |
| TransactionProcessor.NoCrossedLocks | src/main/java/com/cubeia/bookkeeping/transaction/TransactionProcessor.java:52-64 | no two transfers lock the same two wallets in opposite orders, so neither can wait for the other's lock |
| TransactionProcessor.SourceSelection | src/main/java/com/cubeia/bookkeeping/transaction/TransactionProcessor.java:56-78 | the wallet picked as the source through the lock plan is the wallet named by fromId |
| TransactionProcessor.Mint | src/main/java/com/cubeia/bookkeeping/transaction/TransactionProcessor.java:31-45 | appends the source-less transaction and one entry for the wallet whose amount and running balance are both the minted amount; returns (transaction id, amount); balances are untouched |
| TransactionProcessor.Apply | src/main/java/com/cubeia/bookkeeping/transaction/TransactionProcessor.java:85-121 | source down by the amount, destination up by it, every other wallet kept; one transaction and a debit and credit entry sharing its id, with the new balances as running balances; returns the source's new balance |
| TransactionProcessor.Transfer | src/main/java/com/cubeia/bookkeeping/transaction/TransactionProcessor.java:48-121 | SameAccount first; then NotFound naming the lower missing id; then InsufficientFunds; succeeds exactly when the wallets differ, both exist and the source holds at least the amount, and then has the effect of Apply; a failure changes nothing |
| TransactionProcessor.CreateTransaction | src/main/java/com/cubeia/bookkeeping/transaction/TransactionProcessor.java:29-122 | the mint branch always succeeds with (transaction id, amount), appends the source-less transaction and one entry whose amount and running balance are the minted amount, and touches no balance; the transfer branch reports SameAccount, then NotFound for the lower missing id, then InsufficientFunds, succeeds exactly when the wallets differ, both exist and the source holds the amount, and then moves the amount with one transaction and a debit and a credit entry; a failure changes nothing |
| TransactionService.CreateTransaction | src/main/java/com/cubeia/bookkeeping/transaction/TransactionService.java:29-82 | SameAccount first; then NotFound for a missing source; then InsufficientFunds; then NotFound for a missing destination; succeeds exactly when all pass, with the effect of Apply; a failure changes nothing |
| WalletService.CreateWallet | src/main/java/com/cubeia/bookkeeping/wallet/WalletService.java:27-44 | a taken email fails with Unique, changing nothing; success exactly when the email and id are free; on success the wallet is stored, its id returned, and one source-less mint transaction and one entry (amount = running balance = initial balance) are appended |
| WalletService.GetWalletById | src/main/java/com/cubeia/bookkeeping/wallet/WalletService.java:51-58 | fails with NotFound naming the id exactly when the wallet is absent; otherwise returns the stored wallet |
| WalletService.AdjustBalance | src/main/java/com/cubeia/bookkeeping/wallet/WalletService.java:60-62 | returns the old balance plus the delta; only that wallet's balance changes |
| Validation.ValidTransferIff | src/main/java/com/cubeia/bookkeeping/wallet/TransferInput.java:9-20 | a transfer request passes exactly when both ids and the amount are present and the amount is at least 1 |
| Validation.TransferSingleViolation | src/test/java/com/cubeia/bookkeeping/transaction/TransactionControllerInputValidationTest.java:41-104 | a missing fromId, toId or amount, or an amount of 0 or -100, draws exactly one violation naming that field; two ids and 100 pass, and equal ids pass too |
| Validation.ValidCreateWalletIff | src/main/java/com/cubeia/bookkeeping/wallet/CreateWalletInput.java:10-13 | a wallet request passes exactly when the email is present, not blank and well formed and the amount is present and at least 1; a passing amount is positive |
| Validation.CreateWalletSingleViolation | src/test/java/com/cubeia/bookkeeping/wallet/WalletControllerInputValidationTest.java:27-86 | null and empty emails draw only the not-blank violation, a malformed one only the format violation; a missing, zero or negative amount draws one violation |
| Validation.ValidPageIff | src/main/java/com/cubeia/bookkeeping/api/Page.java:6-9 | a page passes exactly when each present value is at most 200; absent, zero and negative values pass; 201 fails |
| Validation.EffectivePageBounds | src/main/java/com/cubeia/bookkeeping/api/Page.java:7-8 | once normalised, a passing page asks for 1 to 200 rows starting 0 to 200 rows in |
| Accounting.AppendEntry | src/main/java/com/cubeia/bookkeeping/ledger/LedgerRepository.java:25-34 | appending one entry changes its wallet's sum and count, and its transaction's sum and count, by exactly that entry |
| Accounting.TotalAdjust | src/main/java/com/cubeia/bookkeeping/wallet/WalletRepository.java:67-74 | adjusting one listed wallet by a delta changes the total of all balances by exactly that delta |
| Invariants.RunningBalanceAt | src/main/java/com/cubeia/bookkeeping/transaction/TransactionProcessor.java:98-116 | in a valid ledger, the entry at position i carries its wallet's sum over the first i + 1 entries |
| Invariants.TransferAppliedKeepsValid | src/main/java/com/cubeia/bookkeeping/transaction/TransactionProcessor.java:85-121 | the effect of a checked transfer keeps every invariant and the total of all balances |
| Invariants.ProcessorTransferKeepsValid | src/main/java/com/cubeia/bookkeeping/transaction/TransactionProcessor.java:48-121 | the canonical-lock transfer, successful or not, keeps the store valid and the total unchanged |
| Invariants.ServiceTransferKeepsValid | src/main/java/com/cubeia/bookkeeping/transaction/TransactionService.java:29-82 | the live transfer, successful or not, keeps the store valid and the total unchanged |
| Invariants.CreateWalletKeepsValid | src/main/java/com/cubeia/bookkeeping/wallet/WalletService.java:27-44 | creating a wallet of at least 1 keeps the store valid; on success the total grows by exactly the initial balance |
| Invariants.CreatedWalletLedger | src/main/java/com/cubeia/bookkeeping/wallet/WalletService.java:32-41 | right after creation, the new wallet has one entry and its balance equals its ledger sum |
| Variants.AgreeOnSuccess | src/main/java/com/cubeia/bookkeeping/transaction/TransactionService.java:44-81 | the two transfer routines succeed together and then give the same store and result; failing, neither changes the store |
| Variants.ErrorPrecedence | src/main/java/com/cubeia/bookkeeping/transaction/TransactionService.java:35-42 | the reported errors differ exactly when the destination is missing and either the source is missing with the destination ordered first, or the source is underfunded |
| Variants.UnderfundedToMissingWallet | src/main/java/com/cubeia/bookkeeping/transaction/TransactionProcessor.java:67-83 | an underfunded source and a missing destination: the processor reports NotFound, the service InsufficientFunds, neither changes anything |
| Variants.SameAccountFirst | src/main/java/com/cubeia/bookkeeping/transaction/TransactionService.java:30-32 | equal ids fail with SameAccount on both paths, whether or not the wallet exists or has the funds |
| History.HistoryComplete | src/main/java/com/cubeia/bookkeeping/transaction/TransactionRepository.java:50-55 | when every entry's transaction exists, a wallet's joined history has one row per ledger entry of that wallet |
| History.HistoryPageLength | src/main/java/com/cubeia/bookkeeping/transaction/TransactionRepository.java:42-62 | a history page holds min(limit, entries of the wallet - offset) rows |
| History.FindAppended | src/main/java/com/cubeia/bookkeeping/transaction/TransactionRepository.java:53 | a freshly appended transaction is the one the join finds for its id |
| History.TransferHistory | src/test/java/com/cubeia/bookkeeping/transaction/TransactionControllerIntegrationTest.java:76-121 | after a checked transfer, the source's newest row is the transfer with -amount and its new balance, and the destination's newest row is the transfer with +amount and its new balance |
| History.MintHistory | src/main/java/com/cubeia/bookkeeping/transaction/TransactionRepository.java:14-21 | a new wallet's history is its mint alone: no source, the minted amount as the amount and the running balance |
| Scenarios.RunTransfers | src/test/java/com/cubeia/bookkeeping/transaction/TransactionConcurrencyIntegrationTest.java:72-96 | a successful run of transfers keeps the wallets and their order, appends one transaction and two entries per request, and only appends |
| Scenarios.RunBetween | src/test/java/com/cubeia/bookkeeping/transaction/TransactionConcurrencyIntegrationTest.java:146-207 | transfers of x in either direction, in any order, all succeed while each sender can cover what it sends; each wallet ends at start - sent + received, with one more entry per transfer |
| Scenarios.RunKeepsValid | src/main/java/com/cubeia/bookkeeping/transaction/TransactionService.java:29-82 | any run of transfers with fresh ids and amounts of at least 1 keeps the store valid and the total unchanged |
| Scenarios.RunKeepsLinked | src/main/java/com/cubeia/bookkeeping/transaction/TransactionService.java:52-76 | a run keeps every entry linked to an existing wallet and transaction |
| Scenarios.RunHistory | src/main/java/com/cubeia/bookkeeping/transaction/TransactionRepository.java:42-62 | after a run, any wallet's history page holds min(limit, its entries) rows |
| Scenarios.TwoWalletsCreated | src/test/java/com/cubeia/bookkeeping/transaction/TransactionControllerIntegrationTest.java:37-56 | creating wallet 1 on an empty store and then wallet 2 succeeds each time with that wallet's id and yields exactly the one-wallet and then the two-wallet store |
| Scenarios.OneWalletValid | src/main/java/com/cubeia/bookkeeping/wallet/WalletService.java:27-44 | the store holding one freshly created wallet of at least 1 satisfies every invariant |
| Scenarios.TwoWalletsValid | src/main/java/com/cubeia/bookkeeping/wallet/WalletService.java:27-44 | the two-wallet store is valid and each wallet has its one mint entry |
| Scenarios.CreateThenRead | src/test/java/com/cubeia/bookkeeping/wallet/WalletControllerIntegrationTest.java:44-60 | a wallet created with 100 reads back with balance 100; a second wallet with the same email is refused with Unique, changing nothing |
| Scenarios.TransferFifty | src/test/java/com/cubeia/bookkeeping/transaction/TransactionControllerIntegrationTest.java:36-121 | wallets of 100 and 1, transfer 50: result 50, balances 50 and 51, and the newest rows of the two histories are -50 and +50 |
| Scenarios.TransferRefusals | src/main/java/com/cubeia/bookkeeping/transaction/TransactionService.java:29-42 | overdrawing, an unknown destination and the same wallet on both sides fail with InsufficientFunds, NotFound(99) and SameAccount, each changing nothing |
| Scenarios.OneWay | src/test/java/com/cubeia/bookkeeping/transaction/TransactionConcurrencyIntegrationTest.java:64-110 | transfers of x from a to b all succeed while a holds them all; a loses and b gains exactly n times x |
| Scenarios.TenTransfers | src/test/java/com/cubeia/bookkeeping/transaction/TransactionConcurrencyIntegrationTest.java:64-110 | ten transfers of 10 from 1000 to 1 all succeed and leave 900 and 101 |
| Scenarios.TenTransfersHistory | src/test/java/com/cubeia/bookkeeping/transaction/TransactionConcurrencyIntegrationTest.java:112-115 | after those ten transfers the destination's history holds 11 rows |
| Scenarios.Bidirectional | src/test/java/com/cubeia/bookkeeping/transaction/TransactionConcurrencyIntegrationTest.java:146-207 | fifty transfers of 10 each way between two wallets of 1000, in any order, all succeed and leave 1000 and 1000, 2000 in total |
| Scenarios.BidirectionalHistory | src/test/java/com/cubeia/bookkeeping/transaction/TransactionConcurrencyIntegrationTest.java:209-217 | after those hundred transfers each wallet's history holds 101 rows |
| Scenarios.SixRowPages | src/main/java/com/cubeia/bookkeeping/transaction/TransactionRepository.java:42-62 | a linked history of six rows read two at a time gives two rows at offsets 0, 2 and 4 and none at 6, and the first two pages together are the first page of four |
| Scenarios.PagedHistory | src/test/java/com/cubeia/bookkeeping/transaction/TransactionControllerIntegrationTest.java:125-173 | wallets of 100 and 1 and five transfers of 10: all succeed, and the source's history read two at a time gives two rows at offsets 0, 2 and 4, none at 6, and the first two pages line up with one page of four |

## Left out

- Concurrency: thread pools, `SELECT ... FOR UPDATE` blocking, lock timeouts and real deadlock freedom are not modelled. Every operation runs alone on the store, and only the lock-order lemmas (`LockOrderSymmetric`, `NoCrossedLocks`) remain of the locking argument.
- SQL and JDBC (`JdbcClient`, `KeyHolder`, row mappers, the SQL text): the repositories are operations on maps and sequences.
- The HTTP layer: `WalletController`, `TransactionController`, `GlobalExceptionHandler` with its status codes and PostgreSQL error parsing, and the pass-through `LedgerService`. The transfer service writes its entries through `LedgerService`; the model calls the repository directly, which does the same thing.
- Id generation (time-based UUIDs): every generated id is a parameter. Transaction and ledger ids are not checked for primary-key clashes. The invariant lemmas assume fresh transaction ids instead.
- UUID ordering: ids are integers under `<`, a strict total order like `UUID.compareTo`.
- Timestamps (`created_at`): "newest first" is reverse insertion order. The history read orders by transaction time; because a transaction and its entries are written together, this is the same as ledger insertion order.
- `BigDecimal` scale and rounding: amounts are exact reals.
- The `@Email` pattern: a parameter `wellFormed` of `CreateWalletViolations`, because the validator's address pattern is library code. Blank is modelled as the not-blank validator decides it: nothing left after `String.trim`, that is every character at most U+0020.
- `Integer` limit and offset: these are unbounded integers here; values beyond 32 bits cannot arrive through the validated `Page`.
- TransactionProcessor.Transfer and TransactionService.CreateTransaction: a null `fromId` would throw a null-pointer exception in the source. Here it is a precondition (`t.fromId.Some?`), which request validation guarantees.
- WalletRepository.AdjustBalance and WalletService.AdjustBalance: the source throws when the id has no row. Here the id must exist (a precondition), and every caller has just looked the wallet up.
- WalletRepository.GetWalletByEmail: the table lookup sees every row; the model searches the wallets listed in insertion order (`created`). The two agree in every store where each wallet is listed, which `WalletsWellFormed` requires and every operation keeps; in a store built by hand with a wallet missing from `created`, the model finds nothing.
- WalletService.GetWallets and TransactionService.GetTransactionByWalletId are one-line delegations. They have no contracts of their own; the repository functions they call carry them.
- Scenarios.RunTransfers: the concurrency tests run their transfers in parallel. The model runs them one after another, in any order the caller picks.

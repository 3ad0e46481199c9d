/**
  The bookkeeping invariants of the store, and their preservation by wallet
  creation (with its mint) and by both transfer paths:
    - every wallet's balance is non-negative and equals the sum of its ledger entries;
    - every entry's running balance is its wallet's ledger sum up to and including it;
    - every transfer has exactly two entries summing to zero, every mint exactly
      one entry carrying the minted amount;
    - the total of all balances equals the total ever minted.
 */
module Invariants {
  import opened Domain
  import opened Accounting
  import WalletRepository
  import TransactionRepository
  import TransactionProcessor
  import TransactionService
  import WalletService

  /** The wallet map, the creation order and the unique email column agree. */
  ghost predicate WalletsWellFormed(s: Store) {
    && (forall id :: id in s.wallets ==> s.wallets[id].id == id)
    && (forall id :: id in s.wallets <==> id in s.created)
    && NoDuplicates(s.created)
    && (forall a, b :: a in s.wallets && b in s.wallets && a != b ==> s.wallets[a].email != s.wallets[b].email)
  }

  ghost predicate BalancesMatchLedger(s: Store) {
    forall id :: id in s.wallets ==> s.wallets[id].balance >= 0.0 && s.wallets[id].balance == LedgerSum(s.ledger, id)
  }

  /** Each entry belongs to an existing wallet and an existing transaction. */
  ghost predicate EntriesLinked(s: Store) {
    forall i :: 0 <= i < |s.ledger| ==>
      s.ledger[i].walletId in s.wallets && TransactionRepository.HasTransaction(s.transactions, s.ledger[i].transactionId)
  }

  /** Each entry's running balance is its wallet's ledger sum up to and including
      that entry (stated newest entry first; RunningBalanceAt gives the indexed form). */
  ghost predicate RunningBalances(ledger: seq<LedgerEntry>) {
    |ledger| == 0 ||
      var e := ledger[|ledger| - 1];
      RunningBalances(ledger[..|ledger| - 1]) && e.runningBalance == LedgerSum(ledger, e.walletId)
  }

  ghost predicate TxIdsUnique(txs: seq<Transaction>) {
    forall i, j :: 0 <= i < j < |txs| ==> txs[i].id != txs[j].id
  }

  /** The rules for one transaction: a positive amount; a mint has one entry
      carrying its amount; a transfer names two different wallets and has two
      entries summing to zero. */
  ghost predicate DoubleEntry(ledger: seq<LedgerEntry>, t: Transaction) {
    && t.amount > 0.0
    && (t.fromId.None? ==> TxEntryCount(ledger, t.id) == 1 && TxSum(ledger, t.id) == t.amount)
    && (t.fromId.Some? ==> t.fromId.value != t.toId && TxEntryCount(ledger, t.id) == 2 && TxSum(ledger, t.id) == 0.0)
  }

  ghost predicate TransactionsBalanced(s: Store) {
    forall i :: 0 <= i < |s.transactions| ==> DoubleEntry(s.ledger, s.transactions[i])
  }

  ghost predicate Valid(s: Store) {
    && WalletsWellFormed(s)
    && BalancesMatchLedger(s)
    && EntriesLinked(s)
    && RunningBalances(s.ledger)
    && TxIdsUnique(s.transactions)
    && TransactionsBalanced(s)
    && TotalBalance(s.wallets, s.created) == Minted(s.transactions)
  }

  lemma EmptyValid()
    ensures Valid(Empty)
  {
  }

  // ------------------------------------------------------------- ledger steps

  /** Appending an entry whose running balance is its wallet's sum so far plus
      its own amount keeps every running balance correct. */
  lemma AppendKeepsRunning(ledger: seq<LedgerEntry>, e: LedgerEntry)
    requires RunningBalances(ledger)
    requires e.runningBalance == LedgerSum(ledger, e.walletId) + e.amount
    ensures RunningBalances(ledger + [e])
  {
    AppendEntry(ledger, e);
    assert (ledger + [e])[..|ledger|] == ledger;
  }

  /** The indexed reading: the entry at position `i` carries its wallet's ledger
      sum over the first `i + 1` entries. */
  lemma {:induction false} RunningBalanceAt(ledger: seq<LedgerEntry>, i: nat)
    requires RunningBalances(ledger) && i < |ledger|
    ensures ledger[i].runningBalance == LedgerSum(ledger[..i + 1], ledger[i].walletId)
  {
    var prefix := ledger[..|ledger| - 1];
    if i == |ledger| - 1 {
      assert ledger[..i + 1] == ledger;
    } else {
      RunningBalanceAt(prefix, i);
      assert prefix[..i + 1] == ledger[..i + 1];
    }
  }

  lemma HasTransactionAppend(txs: seq<Transaction>, t: Transaction, id: Id)
    requires TransactionRepository.HasTransaction(txs, id) || id == t.id
    ensures TransactionRepository.HasTransaction(txs + [t], id)
  {
    if id == t.id {
      assert (txs + [t])[|txs|].id == id;
    } else {
      var j :| 0 <= j < |txs| && txs[j].id == id;
      assert (txs + [t])[j].id == id;
    }
  }

  /** A fresh transaction id has no entries in a linked ledger. */
  lemma FreshTransactionHasNoEntries(s: Store, tx: Id)
    requires EntriesLinked(s) && !TransactionRepository.HasTransaction(s.transactions, tx)
    ensures TxSum(s.ledger, tx) == 0.0 && TxEntryCount(s.ledger, tx) == 0
  {
    NoEntriesFor(s.ledger, tx);
  }

  // ------------------------------------------------------------------ transfer

  /** What both transfer paths have established before they mutate anything. */
  ghost predicate TransferChecked(s: Store, t: Transaction) {
    && t.fromId.Some? && t.fromId.value in s.wallets && t.toId in s.wallets && t.fromId.value != t.toId
    && s.wallets[t.fromId.value].balance >= t.amount && t.amount >= 1.0
    && !TransactionRepository.HasTransaction(s.transactions, t.id)
  }

  lemma TransferKeepsWallets(s: Store, t: Transaction, debitId: Id, creditId: Id, o: Outcome<TransactionResult>)
    requires TransferChecked(s, t) && TransactionProcessor.TransferApplied(s, t, debitId, creditId, o)
    requires WalletsWellFormed(s)
    ensures WalletsWellFormed(o.store)
  {
  }

  lemma TransferKeepsBalances(s: Store, t: Transaction, debitId: Id, creditId: Id, o: Outcome<TransactionResult>)
    requires TransferChecked(s, t) && TransactionProcessor.TransferApplied(s, t, debitId, creditId, o)
    requires BalancesMatchLedger(s)
    ensures BalancesMatchLedger(o.store)
  {
    var from, to, a := t.fromId.value, t.toId, t.amount;
    var d := LedgerEntry(debitId, t.id, from, -a, s.wallets[from].balance - a);
    var c := LedgerEntry(creditId, t.id, to, a, s.wallets[to].balance + a);
    assert o.store.ledger == (s.ledger + [d]) + [c];
    AppendEntry(s.ledger, d);
    AppendEntry(s.ledger + [d], c);
  }

  lemma TransferKeepsLinks(s: Store, t: Transaction, debitId: Id, creditId: Id, o: Outcome<TransactionResult>)
    requires TransferChecked(s, t) && TransactionProcessor.TransferApplied(s, t, debitId, creditId, o)
    requires EntriesLinked(s)
    ensures EntriesLinked(o.store)
  {
    var s' := o.store;
    forall i | 0 <= i < |s'.ledger|
      ensures s'.ledger[i].walletId in s'.wallets
      ensures TransactionRepository.HasTransaction(s'.transactions, s'.ledger[i].transactionId)
    {
      if i < |s.ledger| {
        assert s'.ledger[i] == s.ledger[i];
      }
      HasTransactionAppend(s.transactions, t, s'.ledger[i].transactionId);
    }
  }

  lemma TransferKeepsRunning(s: Store, t: Transaction, debitId: Id, creditId: Id, o: Outcome<TransactionResult>)
    requires TransferChecked(s, t) && TransactionProcessor.TransferApplied(s, t, debitId, creditId, o)
    requires BalancesMatchLedger(s) && RunningBalances(s.ledger)
    ensures RunningBalances(o.store.ledger)
  {
    var from, to, a := t.fromId.value, t.toId, t.amount;
    var d := LedgerEntry(debitId, t.id, from, -a, s.wallets[from].balance - a);
    var c := LedgerEntry(creditId, t.id, to, a, s.wallets[to].balance + a);
    assert o.store.ledger == (s.ledger + [d]) + [c];
    AppendEntry(s.ledger, d);
    AppendKeepsRunning(s.ledger, d);
    AppendKeepsRunning(s.ledger + [d], c);
  }

  lemma TransferKeepsTransactions(s: Store, t: Transaction, debitId: Id, creditId: Id, o: Outcome<TransactionResult>)
    requires TransferChecked(s, t) && TransactionProcessor.TransferApplied(s, t, debitId, creditId, o)
    requires EntriesLinked(s) && TxIdsUnique(s.transactions) && TransactionsBalanced(s)
    ensures TxIdsUnique(o.store.transactions) && TransactionsBalanced(o.store)
  {
    var s' := o.store;
    var from, to, a := t.fromId.value, t.toId, t.amount;
    var d := LedgerEntry(debitId, t.id, from, -a, s.wallets[from].balance - a);
    var c := LedgerEntry(creditId, t.id, to, a, s.wallets[to].balance + a);
    assert s'.ledger == (s.ledger + [d]) + [c];
    AppendEntry(s.ledger, d);
    AppendEntry(s.ledger + [d], c);
    forall i, j | 0 <= i < j < |s'.transactions|
      ensures s'.transactions[i].id != s'.transactions[j].id
    {
      if j == |s.transactions| {
        assert s'.transactions[i] == s.transactions[i];
      }
    }
    FreshTransactionHasNoEntries(s, t.id);
    forall i | 0 <= i < |s'.transactions|
      ensures DoubleEntry(s'.ledger, s'.transactions[i])
    {
      if i < |s.transactions| {
        assert s'.transactions[i] == s.transactions[i];
        assert DoubleEntry(s.ledger, s.transactions[i]);
        assert s.transactions[i].id != t.id;
      }
    }
  }

  lemma TransferKeepsTotal(s: Store, t: Transaction, debitId: Id, creditId: Id, o: Outcome<TransactionResult>)
    requires TransferChecked(s, t) && TransactionProcessor.TransferApplied(s, t, debitId, creditId, o)
    requires WalletsWellFormed(s)
    ensures TotalBalance(o.store.wallets, o.store.created) == TotalBalance(s.wallets, s.created)
    ensures Minted(o.store.transactions) == Minted(s.transactions)
  {
    var from, to, a := t.fromId.value, t.toId, t.amount;
    var m1 := s.wallets[from := s.wallets[from].(balance := s.wallets[from].balance - a)];
    assert o.store.wallets == m1[to := m1[to].(balance := m1[to].balance + a)];
    assert exists i :: 0 <= i < |s.created| && s.created[i] == from;
    TotalAdjust(s.wallets, s.created, from, -a);
    assert exists i :: 0 <= i < |s.created| && s.created[i] == to;
    TotalAdjust(m1, s.created, to, a);
    AppendTransaction(s.transactions, t);
  }

  /** The effect of any successful transfer, written as TransferApplied, keeps the
      store valid and the total of all balances unchanged. */
  lemma TransferAppliedKeepsValid(s: Store, t: Transaction, debitId: Id, creditId: Id, o: Outcome<TransactionResult>)
    requires Valid(s) && TransferChecked(s, t)
    requires TransactionProcessor.TransferApplied(s, t, debitId, creditId, o)
    ensures Valid(o.store)
    ensures TotalBalance(o.store.wallets, o.store.created) == TotalBalance(s.wallets, s.created)
  {
    TransferKeepsWallets(s, t, debitId, creditId, o);
    TransferKeepsBalances(s, t, debitId, creditId, o);
    TransferKeepsLinks(s, t, debitId, creditId, o);
    TransferKeepsRunning(s, t, debitId, creditId, o);
    TransferKeepsTransactions(s, t, debitId, creditId, o);
    TransferKeepsTotal(s, t, debitId, creditId, o);
  }

  /** The transfer branch of the processor preserves every invariant and the total of all balances. */
  lemma ProcessorTransferKeepsValid(s: Store, t: Transaction, debitId: Id, creditId: Id)
    requires Valid(s) && t.fromId.Some? && t.amount >= 1.0
    requires !TransactionRepository.HasTransaction(s.transactions, t.id)
    ensures var o := TransactionProcessor.Transfer(s, t, debitId, creditId);
            Valid(o.store) && TotalBalance(o.store.wallets, o.store.created) == TotalBalance(s.wallets, s.created)
  {
    var o := TransactionProcessor.Transfer(s, t, debitId, creditId);
    if o.result.Success? {
      TransferAppliedKeepsValid(s, t, debitId, creditId, o);
    }
  }

  /** The live transfer path preserves every invariant and the total of all balances. */
  lemma ServiceTransferKeepsValid(s: Store, t: Transaction, debitId: Id, creditId: Id)
    requires Valid(s) && t.fromId.Some? && t.amount >= 1.0
    requires !TransactionRepository.HasTransaction(s.transactions, t.id)
    ensures var o := TransactionService.CreateTransaction(s, t, debitId, creditId);
            Valid(o.store) && TotalBalance(o.store.wallets, o.store.created) == TotalBalance(s.wallets, s.created)
  {
    var o := TransactionService.CreateTransaction(s, t, debitId, creditId);
    if o.result.Success? {
      TransferAppliedKeepsValid(s, t, debitId, creditId, o);
    }
  }

  // --------------------------------------------------------------- create/mint

  /** The store a successful wallet creation leaves behind, with what was checked first. */
  ghost predicate WalletCreated(s: Store, w: Wallet, mintId: Id, entryId: Id, s': Store) {
    && w.id !in s.wallets && !WalletRepository.EmailTaken(s, w.email)
    && w.balance >= 1.0 && !TransactionRepository.HasTransaction(s.transactions, mintId)
    && s'.wallets == s.wallets[w.id := w]
    && s'.created == s.created + [w.id]
    && s'.transactions == s.transactions + [Transaction(mintId, None, w.id, w.balance)]
    && s'.ledger == s.ledger + [LedgerEntry(entryId, mintId, w.id, w.balance, w.balance)]
  }

  lemma CreateKeepsWallets(s: Store, w: Wallet, mintId: Id, entryId: Id, s': Store)
    requires WalletCreated(s, w, mintId, entryId, s') && WalletsWellFormed(s)
    ensures WalletsWellFormed(s')
  {
    forall i, j | 0 <= i < j < |s'.created|
      ensures s'.created[i] != s'.created[j]
    {
      if j == |s.created| {
        assert s'.created[i] == s.created[i];
      }
    }
  }

  /** The new wallet has no earlier entries, so its ledger sum is zero before the mint. */
  lemma NewWalletHasNoEntries(s: Store, w: Wallet)
    requires EntriesLinked(s) && w.id !in s.wallets
    ensures LedgerSum(s.ledger, w.id) == 0.0 && EntryCount(s.ledger, w.id) == 0
  {
    NoEntriesOf(s.ledger, w.id);
  }

  lemma CreateKeepsLedger(s: Store, w: Wallet, mintId: Id, entryId: Id, s': Store)
    requires WalletCreated(s, w, mintId, entryId, s')
    requires BalancesMatchLedger(s) && EntriesLinked(s) && RunningBalances(s.ledger)
    ensures BalancesMatchLedger(s') && EntriesLinked(s') && RunningBalances(s'.ledger)
  {
    var t := Transaction(mintId, None, w.id, w.balance);
    var e := LedgerEntry(entryId, mintId, w.id, w.balance, w.balance);
    AppendEntry(s.ledger, e);
    NewWalletHasNoEntries(s, w);
    forall i | 0 <= i < |s'.ledger|
      ensures s'.ledger[i].walletId in s'.wallets
      ensures TransactionRepository.HasTransaction(s'.transactions, s'.ledger[i].transactionId)
    {
      if i < |s.ledger| {
        assert s'.ledger[i] == s.ledger[i];
      }
      HasTransactionAppend(s.transactions, t, s'.ledger[i].transactionId);
    }
    AppendKeepsRunning(s.ledger, e);
  }

  lemma CreateKeepsTransactions(s: Store, w: Wallet, mintId: Id, entryId: Id, s': Store)
    requires WalletCreated(s, w, mintId, entryId, s')
    requires EntriesLinked(s) && TxIdsUnique(s.transactions) && TransactionsBalanced(s)
    ensures TxIdsUnique(s'.transactions) && TransactionsBalanced(s')
  {
    var e := LedgerEntry(entryId, mintId, w.id, w.balance, w.balance);
    AppendEntry(s.ledger, e);
    forall i, j | 0 <= i < j < |s'.transactions|
      ensures s'.transactions[i].id != s'.transactions[j].id
    {
      if j == |s.transactions| {
        assert s'.transactions[i] == s.transactions[i];
      }
    }
    FreshTransactionHasNoEntries(s, mintId);
    forall i | 0 <= i < |s'.transactions|
      ensures DoubleEntry(s'.ledger, s'.transactions[i])
    {
      if i < |s.transactions| {
        assert s'.transactions[i] == s.transactions[i];
        assert DoubleEntry(s.ledger, s.transactions[i]);
        assert s.transactions[i].id != mintId;
      }
    }
  }

  lemma CreateAddsToTotal(s: Store, w: Wallet, mintId: Id, entryId: Id, s': Store)
    requires WalletCreated(s, w, mintId, entryId, s') && WalletsWellFormed(s)
    ensures TotalBalance(s'.wallets, s'.created) == TotalBalance(s.wallets, s.created) + w.balance
    ensures Minted(s'.transactions) == Minted(s.transactions) + w.balance
  {
    assert forall i :: 0 <= i < |s.created| ==> s.created[i] != w.id;
    TotalAddWallet(s.wallets, s.created, w);
    AppendTransaction(s.transactions, Transaction(mintId, None, w.id, w.balance));
  }

  /** Wallet creation with its mint keeps the store valid, and the total of all
      balances grows by exactly the minted amount. */
  lemma CreateWalletKeepsValid(s: Store, w: Wallet, mintId: Id, entryId: Id)
    requires Valid(s) && w.balance >= 1.0
    requires !TransactionRepository.HasTransaction(s.transactions, mintId)
    ensures var o := WalletService.CreateWallet(s, w, mintId, entryId);
            && Valid(o.store)
            && (o.result.Success? ==>
                  TotalBalance(o.store.wallets, o.store.created) == TotalBalance(s.wallets, s.created) + w.balance)
  {
    var o := WalletService.CreateWallet(s, w, mintId, entryId);
    if o.result.Success? {
      assert WalletCreated(s, w, mintId, entryId, o.store);
      CreateKeepsWallets(s, w, mintId, entryId, o.store);
      CreateKeepsLedger(s, w, mintId, entryId, o.store);
      CreateKeepsTransactions(s, w, mintId, entryId, o.store);
      CreateAddsToTotal(s, w, mintId, entryId, o.store);
    }
  }

  /** Right after creation, the new wallet's ledger is its one mint entry, so its
      balance is the sum of its ledger amounts. */
  lemma CreatedWalletLedger(s: Store, w: Wallet, mintId: Id, entryId: Id)
    requires Valid(s)
    ensures var o := WalletService.CreateWallet(s, w, mintId, entryId);
            o.result.Success? ==>
              && LedgerSum(o.store.ledger, w.id) == w.balance == o.store.wallets[w.id].balance
              && EntryCount(o.store.ledger, w.id) == 1
  {
    var o := WalletService.CreateWallet(s, w, mintId, entryId);
    if o.result.Success? {
      NewWalletHasNoEntries(s, w);
      AppendEntry(s.ledger, LedgerEntry(entryId, mintId, w.id, w.balance, w.balance));
    }
  }
}

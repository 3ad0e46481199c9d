/**
  What the per-wallet history read returns once every ledger entry's transaction exists: one row per ledger
  entry of the wallet, each carrying that entry's signed amount; a transfer puts
  a debit row on top of the source's history and a credit row on top of the
  destination's, and a mint shows up as a source-less row.
 */
module History {
  import opened Domain
  import opened Accounting
  import opened Invariants
  import Paging
  import LedgerRepository
  import TransactionRepository
  import TransactionProcessor
  import TransactionService
  import WalletService

  lemma {:induction false} EntriesOfCount(ledger: seq<LedgerEntry>, w: Id)
    ensures |LedgerRepository.EntriesOf(ledger, w)| == EntryCount(ledger, w)
  {
    if |ledger| > 0 {
      EntriesOfCount(ledger[..|ledger| - 1], w);
    }
  }

  /** Every ledger entry of a wallet finds its transaction, so the join drops nothing:
      a wallet's history has exactly as many rows as the wallet has ledger entries. */
  lemma HistoryComplete(s: Store, w: Id)
    requires EntriesLinked(s)
    ensures |TransactionRepository.Joined(s.transactions, LedgerRepository.EntriesOf(s.ledger, w))| == EntryCount(s.ledger, w)
  {
    var mine := LedgerRepository.EntriesOf(s.ledger, w);
    LedgerRepository.EntriesOfMembers(s.ledger, w);
    forall i | 0 <= i < |mine|
      ensures TransactionRepository.HasTransaction(s.transactions, mine[i].transactionId)
    {
      assert mine[i] in mine;
      var k :| 0 <= k < |s.ledger| && s.ledger[k] == mine[i];
    }
    TransactionRepository.JoinedComplete(s.transactions, mine);
    EntriesOfCount(s.ledger, w);
  }

  /** The paged history read returns min(limit, entries - offset) rows, once
      every entry's transaction exists. */
  lemma HistoryPageLength(s: Store, w: Id, limit: Option<int>, offset: Option<int>)
    requires EntriesLinked(s)
    ensures |TransactionRepository.GetTransactionByWalletId(s, w, limit, offset)|
         == Min(Paging.NormalizeLimit(limit), Max(0, EntryCount(s.ledger, w) - Paging.NormalizeOffset(offset)))
  {
    HistoryComplete(s, w);
  }

  /** A freshly appended transaction is what the join finds for its id. */
  lemma {:induction false} FindAppended(txs: seq<Transaction>, t: Transaction)
    requires !TransactionRepository.HasTransaction(txs, t.id)
    ensures TransactionRepository.FindTransaction(txs + [t], t.id) == Some(t)
  {
    if |txs| > 0 {
      assert (txs + [t])[1..] == txs[1..] + [t];
      assert !TransactionRepository.HasTransaction(txs[1..], t.id);
      assert txs[0].id != t.id;
      FindAppended(txs[1..], t);
    }
  }

  /** The newest history row of a wallet whose newest entry `e` belongs to the
      newest transaction `t`. */
  lemma NewestRow(txs: seq<Transaction>, t: Transaction, older: seq<LedgerEntry>, e: LedgerEntry)
    requires !TransactionRepository.HasTransaction(txs, t.id) && e.transactionId == t.id
    ensures var rows := TransactionRepository.Joined(txs + [t], older + [e]);
            |rows| >= 1 && rows[|rows| - 1] == TransactionRepository.JoinRow(t, e)
  {
    FindAppended(txs, t);
    assert (older + [e])[..|older|] == older;
  }

  /** After a successful transfer, the first row of the source's history is the
      debit (minus the amount, the source's new balance) and the first row of
      the destination's history is the credit (plus the amount, its new balance);
      both name the transfer's own id, source and destination. */
  lemma TransferHistory(s: Store, t: Transaction, debitId: Id, creditId: Id)
    requires TransferChecked(s, t)
    ensures var o := TransactionService.CreateTransaction(s, t, debitId, creditId);
            var from, to := t.fromId.value, t.toId;
            && o.result.Success?
            && |TransactionRepository.GetTransactionByWalletId(o.store, from, None, None)| >= 1
            && TransactionRepository.GetTransactionByWalletId(o.store, from, None, None)[0]
               == TransactionRepository.TransactionView(t.id, Some(from), to, -t.amount, s.wallets[from].balance - t.amount)
            && |TransactionRepository.GetTransactionByWalletId(o.store, to, None, None)| >= 1
            && TransactionRepository.GetTransactionByWalletId(o.store, to, None, None)[0]
               == TransactionRepository.TransactionView(t.id, Some(from), to, t.amount, s.wallets[to].balance + t.amount)
  {
    var o := TransactionService.CreateTransaction(s, t, debitId, creditId);
    var from, to, a := t.fromId.value, t.toId, t.amount;
    var d := LedgerEntry(debitId, t.id, from, -a, s.wallets[from].balance - a);
    var c := LedgerEntry(creditId, t.id, to, a, s.wallets[to].balance + a);
    assert o.store.ledger == (s.ledger + [d]) + [c];
    LedgerRepository.EntriesOfAppend(s.ledger, d, from);
    LedgerRepository.EntriesOfAppend(s.ledger + [d], c, from);
    LedgerRepository.EntriesOfAppend(s.ledger, d, to);
    LedgerRepository.EntriesOfAppend(s.ledger + [d], c, to);
    NewestRow(s.transactions, t, LedgerRepository.EntriesOf(s.ledger, from), d);
    NewestRow(s.transactions, t, LedgerRepository.EntriesOf(s.ledger, to), c);
  }

  /** A newly created wallet's history is its mint alone: no source, the minted
      amount as both the entry amount and the running balance. */
  lemma MintHistory(s: Store, w: Wallet, mintId: Id, entryId: Id)
    requires EntriesLinked(s) && !TransactionRepository.HasTransaction(s.transactions, mintId)
    ensures var o := WalletService.CreateWallet(s, w, mintId, entryId);
            o.result.Success? ==>
              TransactionRepository.GetTransactionByWalletId(o.store, w.id, None, None)
              == [TransactionRepository.TransactionView(mintId, None, w.id, w.balance, w.balance)]
  {
    var o := WalletService.CreateWallet(s, w, mintId, entryId);
    if o.result.Success? {
      var t := Transaction(mintId, None, w.id, w.balance);
      var e := LedgerEntry(entryId, mintId, w.id, w.balance, w.balance);
      NewWalletHasNoEntries(s, w);
      EntriesOfCount(s.ledger, w.id);
      assert LedgerRepository.EntriesOf(s.ledger, w.id) == [];
      LedgerRepository.EntriesOfAppend(s.ledger, e, w.id);
      FindAppended(s.transactions, t);
      assert LedgerRepository.EntriesOf(o.store.ledger, w.id) == [] + [e];
      assert TransactionRepository.Joined(o.store.transactions, [] + [e]) == [TransactionRepository.JoinRow(t, e)];
    }
  }
}

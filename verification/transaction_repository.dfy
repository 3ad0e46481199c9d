/**
  The transaction table (TransactionRepository): an append-only sequence of
  transactions, and the per-wallet history read that joins each of the wallet's
  ledger entries to the transaction it belongs to.
 */
module TransactionRepository {
  import opened Domain
  import Paging
  import LedgerRepository

  /** One row of a wallet's history: the transaction's own columns with the
      wallet's ledger amount and running balance for it. */
  datatype TransactionView = TransactionView(id: Id, fromId: Option<Id>, toId: Id, amount: Amount, runningBalance: Amount)

  /** INSERT of one transaction; the returned key is the row's own id. */
  function CreateTransaction(s: Store, t: Transaction): (r: (Store, Id))
    ensures r.1 == t.id
    ensures |r.0.transactions| == |s.transactions| + 1
    ensures r.0.transactions[..|s.transactions|] == s.transactions && r.0.transactions[|s.transactions|] == t
    ensures r.0.wallets == s.wallets && r.0.created == s.created && r.0.ledger == s.ledger
  {
    (s.(transactions := s.transactions + [t]), t.id)
  }

  predicate HasTransaction(txs: seq<Transaction>, id: Id) {
    exists j :: 0 <= j < |txs| && txs[j].id == id
  }

  /** The transaction with primary key `id`, if any (the join's ON clause). */
  function FindTransaction(txs: seq<Transaction>, id: Id): (r: Option<Transaction>)
    ensures r.Some? <==> HasTransaction(txs, id)
    ensures r.Some? ==> r.value in txs && r.value.id == id
  {
    if |txs| == 0 then None
    else if txs[0].id == id then Some(txs[0])
    else
      var r := FindTransaction(txs[1..], id);
      assert forall j :: 1 <= j < |txs| ==> txs[j] == txs[1..][j - 1];
      r
  }

  function JoinRow(t: Transaction, e: LedgerEntry): TransactionView {
    TransactionView(t.id, t.fromId, t.toId, e.amount, e.runningBalance)
  }

  /** The inner join of `entries` with `txs`, in the order of `entries`. */
  function Joined(txs: seq<Transaction>, entries: seq<LedgerEntry>): (r: seq<TransactionView>)
    ensures |r| <= |entries|
  {
    if |entries| == 0 then []
    else
      var e := entries[|entries| - 1];
      var rest := Joined(txs, entries[..|entries| - 1]);
      match FindTransaction(txs, e.transactionId)
      case None => rest
      case Some(t) => rest + [JoinRow(t, e)]
  }

  /** When every entry has its transaction, the join keeps every entry: one row
      each, in order, carrying the entry's own signed amount and running balance
      and the columns of the transaction it belongs to. */
  lemma {:induction false} JoinedComplete(txs: seq<Transaction>, entries: seq<LedgerEntry>)
    requires forall i :: 0 <= i < |entries| ==> HasTransaction(txs, entries[i].transactionId)
    ensures |Joined(txs, entries)| == |entries|
    ensures forall i :: 0 <= i < |entries| ==>
              && Joined(txs, entries)[i].id == entries[i].transactionId
              && Joined(txs, entries)[i].amount == entries[i].amount
              && Joined(txs, entries)[i].runningBalance == entries[i].runningBalance
              && exists t :: t in txs && t.id == entries[i].transactionId && Joined(txs, entries)[i] == JoinRow(t, entries[i])
  {
    if |entries| > 0 {
      var prefix := entries[..|entries| - 1];
      JoinedComplete(txs, prefix);
      var e := entries[|entries| - 1];
      var t := FindTransaction(txs, e.transactionId).value;
      assert Joined(txs, entries) == Joined(txs, prefix) + [JoinRow(t, e)];
      forall i | 0 <= i < |entries|
        ensures exists t :: t in txs && t.id == entries[i].transactionId && Joined(txs, entries)[i] == JoinRow(t, entries[i])
      {
        if i < |prefix| {
          assert entries[i] == prefix[i];
          assert Joined(txs, entries)[i] == Joined(txs, prefix)[i];
        } else {
          assert Joined(txs, entries)[i] == JoinRow(t, e);
        }
      }
    }
  }

  /** The paged history of wallet `w`, newest first: one row per ledger entry of `w`. */
  function GetTransactionByWalletId(s: Store, w: Id, limit: Option<int>, offset: Option<int>): (r: seq<TransactionView>)
    ensures |r| <= Paging.NormalizeLimit(limit)
    ensures var rows := Joined(s.transactions, LedgerRepository.EntriesOf(s.ledger, w));
            && |r| == Min(Paging.NormalizeLimit(limit), Max(0, |rows| - Paging.NormalizeOffset(offset)))
            && forall i :: 0 <= i < |r| ==> r[i] == rows[|rows| - 1 - Paging.NormalizeOffset(offset) - i]
  {
    var rows := Joined(s.transactions, LedgerRepository.EntriesOf(s.ledger, w));
    Paging.Page(rows, limit, offset)
  }
}

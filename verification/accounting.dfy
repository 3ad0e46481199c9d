/**
  Sums over the store from which balances can be rebuilt: a wallet's ledger sum,
  the entries and sum of one transaction, the total of all balances and the total
  ever minted. All are folds from the newest row back, so that appending a row
  is one unfolding step.
 */
module Accounting {
  import opened Domain

  /** Sum of the signed amounts of wallet `w`'s entries. */
  function LedgerSum(ledger: seq<LedgerEntry>, w: Id): Amount {
    if |ledger| == 0 then 0.0
    else
      var e := ledger[|ledger| - 1];
      LedgerSum(ledger[..|ledger| - 1], w) + (if e.walletId == w then e.amount else 0.0)
  }

  /** Number of entries of wallet `w`. */
  function EntryCount(ledger: seq<LedgerEntry>, w: Id): nat {
    if |ledger| == 0 then 0
    else EntryCount(ledger[..|ledger| - 1], w) + (if ledger[|ledger| - 1].walletId == w then 1 else 0)
  }

  /** Sum of the amounts of the entries belonging to transaction `tx`. */
  function TxSum(ledger: seq<LedgerEntry>, tx: Id): Amount {
    if |ledger| == 0 then 0.0
    else
      var e := ledger[|ledger| - 1];
      TxSum(ledger[..|ledger| - 1], tx) + (if e.transactionId == tx then e.amount else 0.0)
  }

  /** Number of entries belonging to transaction `tx`. */
  function TxEntryCount(ledger: seq<LedgerEntry>, tx: Id): nat {
    if |ledger| == 0 then 0
    else TxEntryCount(ledger[..|ledger| - 1], tx) + (if ledger[|ledger| - 1].transactionId == tx then 1 else 0)
  }

  function Balance(wallets: map<Id, Wallet>, id: Id): Amount {
    if id in wallets then wallets[id].balance else 0.0
  }

  /** Sum of the balances of the wallets listed in `ids`. */
  function TotalBalance(wallets: map<Id, Wallet>, ids: seq<Id>): Amount {
    if |ids| == 0 then 0.0
    else TotalBalance(wallets, ids[..|ids| - 1]) + Balance(wallets, ids[|ids| - 1])
  }

  /** Sum of the amounts of all mint transactions: the money that entered the system. */
  function Minted(txs: seq<Transaction>): Amount {
    if |txs| == 0 then 0.0
    else
      var t := txs[|txs| - 1];
      Minted(txs[..|txs| - 1]) + (if t.fromId.None? then t.amount else 0.0)
  }

  predicate NoDuplicates(ids: seq<Id>) {
    forall i, j :: 0 <= i < j < |ids| ==> ids[i] != ids[j]
  }

  // ---------------------------------------------------------------- appending

  /** Appending one entry changes each of the ledger folds by exactly that entry. */
  lemma AppendEntry(ledger: seq<LedgerEntry>, e: LedgerEntry)
    ensures forall w :: LedgerSum(ledger + [e], w) == LedgerSum(ledger, w) + (if e.walletId == w then e.amount else 0.0)
    ensures forall w :: EntryCount(ledger + [e], w) == EntryCount(ledger, w) + (if e.walletId == w then 1 else 0)
    ensures forall tx :: TxSum(ledger + [e], tx) == TxSum(ledger, tx) + (if e.transactionId == tx then e.amount else 0.0)
    ensures forall tx :: TxEntryCount(ledger + [e], tx) == TxEntryCount(ledger, tx) + (if e.transactionId == tx then 1 else 0)
  {
    assert (ledger + [e])[..|ledger|] == ledger;
  }

  lemma AppendTransaction(txs: seq<Transaction>, t: Transaction)
    ensures Minted(txs + [t]) == Minted(txs) + (if t.fromId.None? then t.amount else 0.0)
  {
    assert (txs + [t])[..|txs|] == txs;
  }

  /** A wallet without entries has a ledger sum of zero. */
  lemma {:induction false} NoEntriesOf(ledger: seq<LedgerEntry>, w: Id)
    requires forall i :: 0 <= i < |ledger| ==> ledger[i].walletId != w
    ensures LedgerSum(ledger, w) == 0.0 && EntryCount(ledger, w) == 0
  {
    if |ledger| > 0 {
      NoEntriesOf(ledger[..|ledger| - 1], w);
    }
  }

  /** A transaction without entries has no entry count and a sum of zero. */
  lemma {:induction false} NoEntriesFor(ledger: seq<LedgerEntry>, tx: Id)
    requires forall i :: 0 <= i < |ledger| ==> ledger[i].transactionId != tx
    ensures TxSum(ledger, tx) == 0.0 && TxEntryCount(ledger, tx) == 0
  {
    if |ledger| > 0 {
      NoEntriesFor(ledger[..|ledger| - 1], tx);
    }
  }

  // ------------------------------------------------------------ total balance

  /** The total depends only on the balances of the listed wallets. */
  lemma {:induction false} TotalFrame(m1: map<Id, Wallet>, m2: map<Id, Wallet>, ids: seq<Id>)
    requires forall i :: 0 <= i < |ids| ==> Balance(m1, ids[i]) == Balance(m2, ids[i])
    ensures TotalBalance(m1, ids) == TotalBalance(m2, ids)
  {
    if |ids| > 0 {
      TotalFrame(m1, m2, ids[..|ids| - 1]);
    }
  }

  /** Adding `delta` to one listed wallet adds `delta` to the total. */
  lemma {:induction false} TotalAdjust(m: map<Id, Wallet>, ids: seq<Id>, k: Id, delta: Amount)
    requires k in m && NoDuplicates(ids)
    requires exists i :: 0 <= i < |ids| && ids[i] == k
    ensures TotalBalance(m[k := m[k].(balance := m[k].balance + delta)], ids) == TotalBalance(m, ids) + delta
  {
    var m' := m[k := m[k].(balance := m[k].balance + delta)];
    var prefix := ids[..|ids| - 1];
    if ids[|ids| - 1] == k {
      TotalFrame(m', m, prefix);
    } else {
      var i :| 0 <= i < |ids| && ids[i] == k;
      assert prefix[i] == k;
      TotalAdjust(m, prefix, k, delta);
    }
  }

  /** Listing one more wallet, absent from the map so far, adds its balance. */
  lemma TotalAddWallet(m: map<Id, Wallet>, ids: seq<Id>, w: Wallet)
    requires forall i :: 0 <= i < |ids| ==> ids[i] != w.id
    ensures TotalBalance(m[w.id := w], ids + [w.id]) == TotalBalance(m, ids) + w.balance
  {
    assert (ids + [w.id])[..|ids|] == ids;
    TotalFrame(m[w.id := w], m, ids);
  }
}

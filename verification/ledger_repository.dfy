/**
  The ledger table (LedgerRepository): an append-only sequence of entries. The
  repository offers an insert and a paged read by wallet; nothing updates or
  deletes an entry, so the only way the ledger changes is `CreateLedgerEntry`.
 */
module LedgerRepository {
  import opened Domain
  import Paging

  /** A ledger row as the read maps it back: the query neither selects nor maps
      running_balance, so the record handed out has no running balance. */
  datatype LedgerView = LedgerView(id: Id, transactionId: Id, walletId: Id, amount: Amount)

  function ViewOf(e: LedgerEntry): LedgerView {
    LedgerView(e.id, e.transactionId, e.walletId, e.amount)
  }

  /** INSERT of one entry. */
  function CreateLedgerEntry(s: Store, e: LedgerEntry): (s': Store)
    ensures |s'.ledger| == |s.ledger| + 1
    ensures s'.ledger[..|s.ledger|] == s.ledger && s'.ledger[|s.ledger|] == e
    ensures s'.wallets == s.wallets && s'.created == s.created && s'.transactions == s.transactions
  {
    s.(ledger := s.ledger + [e])
  }

  /** The entries of wallet `w`, oldest first. */
  function EntriesOf(ledger: seq<LedgerEntry>, w: Id): (r: seq<LedgerEntry>)
    ensures |r| <= |ledger|
    ensures forall i :: 0 <= i < |r| ==> r[i].walletId == w
  {
    if |ledger| == 0 then []
    else
      var last := ledger[|ledger| - 1];
      var rest := EntriesOf(ledger[..|ledger| - 1], w);
      if last.walletId == w then rest + [last] else rest
  }

  /** The filter keeps exactly the entries of `w`. */
  lemma {:induction false} EntriesOfMembers(ledger: seq<LedgerEntry>, w: Id)
    ensures forall e :: e in EntriesOf(ledger, w) <==> e in ledger && e.walletId == w
  {
    if |ledger| > 0 {
      var prefix := ledger[..|ledger| - 1];
      EntriesOfMembers(prefix, w);
      assert ledger == prefix + [ledger[|ledger| - 1]];
    }
  }

  lemma EntriesOfAppend(ledger: seq<LedgerEntry>, e: LedgerEntry, w: Id)
    ensures EntriesOf(ledger + [e], w) == EntriesOf(ledger, w) + (if e.walletId == w then [e] else [])
  {
    assert (ledger + [e])[..|ledger|] == ledger;
  }

  function Views(entries: seq<LedgerEntry>): (r: seq<LedgerView>)
    ensures |r| == |entries|
    ensures forall i :: 0 <= i < |entries| ==> r[i] == ViewOf(entries[i])
  {
    seq(|entries|, i requires 0 <= i < |entries| => ViewOf(entries[i]))
  }

  /** SELECT ... WHERE wallet_id = ? ORDER BY created_at DESC LIMIT ? OFFSET ?. */
  function GetLedgerEntriesByWalletId(s: Store, w: Id, limit: Option<int>, offset: Option<int>): (r: seq<LedgerView>)
    ensures |r| <= Paging.NormalizeLimit(limit)
    ensures forall i :: 0 <= i < |r| ==> r[i].walletId == w
    ensures var mine := EntriesOf(s.ledger, w);
            && |r| == Min(Paging.NormalizeLimit(limit), Max(0, |mine| - Paging.NormalizeOffset(offset)))
            && forall i :: 0 <= i < |r| ==> r[i] == ViewOf(mine[|mine| - 1 - Paging.NormalizeOffset(offset) - i])
  {
    var mine := EntriesOf(s.ledger, w);
    Paging.Page(Views(mine), limit, offset)
  }
}

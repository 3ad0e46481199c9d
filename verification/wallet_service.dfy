/**
  WalletService: wallet creation (uniqueness check, insert, then a mint through
  the processor), lookup that turns a missing wallet into NotFound, and the
  pass-through balance adjustment.
 */
module WalletService {
  import opened Domain
  import WalletRepository
  import TransactionProcessor

  /** createWallet. `mintId` and `entryId` stand for the generated ids of the mint
      transaction and of its ledger entry. */
  function CreateWallet(s: Store, w: Wallet, mintId: Id, entryId: Id): (o: Outcome<Id>)
    ensures o.result.Failure? ==> o.store == s && o.result.error == Unique
    ensures WalletRepository.GetWalletByEmail(s, w.email).Some? ==> o.result == Failure(Unique)
    ensures o.result.Success? <==> !WalletRepository.EmailTaken(s, w.email) && w.id !in s.wallets
    ensures o.result.Success? ==>
              && o.result.value == w.id
              && o.store.wallets == s.wallets[w.id := w]
              && o.store.created == s.created + [w.id]
              && o.store.transactions == s.transactions + [Transaction(mintId, None, w.id, w.balance)]
              && o.store.ledger == s.ledger + [LedgerEntry(entryId, mintId, w.id, w.balance, w.balance)]
  {
    if WalletRepository.GetWalletByEmail(s, w.email).Some? then
      Outcome(s, Failure(Unique))
    else
      var created := WalletRepository.CreateWallet(s, w);
      if created.result.Failure? then
        Outcome(s, Failure(created.result.error))
      else
        var id := created.result.value;
        var mint := TransactionProcessor.CreateTransaction(
          created.store, Transaction(mintId, None, id, w.balance), true, entryId, entryId);
        Outcome(mint.store, Success(id))
  }

  /** getWalletById: the stored wallet, or NotFound naming the id. */
  function GetWalletById(s: Store, id: Id, rowLock: bool): (r: Result<Wallet>)
    ensures r.Failure? <==> id !in s.wallets
    ensures r.Failure? ==> r.error == NotFound(id)
    ensures r.Success? ==> r.value == s.wallets[id]
  {
    match WalletRepository.GetWalletById(s, id, rowLock)
    case None => Failure(NotFound(id))
    case Some(w) => Success(w)
  }

  /** adjustBalance: delegates to the repository. */
  function AdjustBalance(s: Store, id: Id, delta: Amount): (r: (Store, Amount))
    requires id in s.wallets
    ensures r.1 == s.wallets[id].balance + delta
    ensures r.0.wallets == s.wallets[id := s.wallets[id].(balance := r.1)]
    ensures r.0.created == s.created && r.0.transactions == s.transactions && r.0.ledger == s.ledger
  {
    WalletRepository.AdjustBalance(s, id, delta)
  }

  /** getWallets: delegates to the repository's paged listing. */
  function GetWallets(s: Store, limit: Option<int>, offset: Option<int>): seq<Wallet> {
    WalletRepository.GetWallets(s, limit, offset)
  }
}

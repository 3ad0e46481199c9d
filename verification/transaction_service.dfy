/**
  TransactionService.createTransaction: the transfer path the HTTP layer calls.
  It locks only the source, checks funds, and then checks that the destination
  exists with a plain read, before performing the same mutations as the
  processor's transfer branch (through the wallet and ledger services, which
  delegate to the repositories).
 */
module TransactionService {
  import opened Domain
  import WalletService
  import TransactionProcessor
  import TransactionRepository

  function CreateTransaction(s: Store, t: Transaction, debitId: Id, creditId: Id): (o: Outcome<TransactionResult>)
    requires t.fromId.Some?
    ensures o.result.Failure? ==> o.store == s
    ensures var from, to := t.fromId.value, t.toId;
            && (from == to ==> o.result == Failure(SameAccount))
            && (from != to && from !in s.wallets ==> o.result == Failure(NotFound(from)))
            && (from != to && from in s.wallets && s.wallets[from].balance < t.amount ==>
                  o.result == Failure(InsufficientFunds))
            && (from != to && from in s.wallets && s.wallets[from].balance >= t.amount && to !in s.wallets ==>
                  o.result == Failure(NotFound(to)))
            && (o.result.Success? <==>
                  from != to && from in s.wallets && to in s.wallets && s.wallets[from].balance >= t.amount)
            && (o.result.Success? ==> TransactionProcessor.TransferApplied(s, t, debitId, creditId, o))
  {
    var from := t.fromId.value;
    if from == t.toId then Outcome(s, Failure(SameAccount))
    else
      match WalletService.GetWalletById(s, from, true)
      case Failure(e) => Outcome(s, Failure(e))
      case Success(sourceWallet) =>
        if sourceWallet.balance < t.amount then Outcome(s, Failure(InsufficientFunds))
        else
          match WalletService.GetWalletById(s, t.toId, false)
          case Failure(e) => Outcome(s, Failure(e))
          case Success(_) => TransactionProcessor.Apply(s, t, debitId, creditId)
  }

  /** getTransactionByWalletId: delegates to the repository's paged history read. */
  function GetTransactionByWalletId(s: Store, w: Id, limit: Option<int>, offset: Option<int>): seq<TransactionRepository.TransactionView> {
    TransactionRepository.GetTransactionByWalletId(s, w, limit, offset)
  }
}

/**
  The two transfer routines side by side: the processor's canonical-lock branch
  and the service's live path. They succeed on exactly the same inputs and then
  do exactly the same thing; they differ only in which failure is reported when
  several checks would fail.
 */
module Variants {
  import opened Domain
  import TransactionProcessor
  import TransactionService

  /** Both succeed together, and when they do their stores and results coincide;
      when they fail, neither has touched the store. */
  lemma AgreeOnSuccess(s: Store, t: Transaction, debitId: Id, creditId: Id)
    requires t.fromId.Some?
    ensures var p := TransactionProcessor.Transfer(s, t, debitId, creditId);
            var q := TransactionService.CreateTransaction(s, t, debitId, creditId);
            && (p.result.Success? <==> q.result.Success?)
            && (p.result.Success? ==> p == q)
            && (p.result.Failure? ==> p.store == s && q.store == s)
  {
  }

  /** The reported failures differ exactly when the destination is missing and
      either the source is missing too with the destination ordered first (the
      processor names the lower id, the service the source), or the source exists
      but is underfunded (the processor finds the missing destination before the
      funds check, the service checks funds first). */
  lemma ErrorPrecedence(s: Store, t: Transaction, debitId: Id, creditId: Id)
    requires t.fromId.Some?
    ensures var p := TransactionProcessor.Transfer(s, t, debitId, creditId);
            var q := TransactionService.CreateTransaction(s, t, debitId, creditId);
            var from, to := t.fromId.value, t.toId;
            p.result != q.result <==>
              && from != to && to !in s.wallets
              && ((from !in s.wallets && to < from) || (from in s.wallets && s.wallets[from].balance < t.amount))
  {
  }

  /** The case the two paths disagree on most visibly: an underfunded source and
      a missing destination. */
  lemma UnderfundedToMissingWallet(s: Store, t: Transaction, debitId: Id, creditId: Id)
    requires t.fromId.Some? && t.fromId.value in s.wallets && t.toId !in s.wallets
    requires s.wallets[t.fromId.value].balance < t.amount
    ensures TransactionProcessor.Transfer(s, t, debitId, creditId) == Outcome(s, Failure(NotFound(t.toId)))
    ensures TransactionService.CreateTransaction(s, t, debitId, creditId) == Outcome(s, Failure(InsufficientFunds))
  {
  }

  /** The same-account check comes first on both paths: it wins even when the
      wallet is missing or its funds would suffice. */
  lemma SameAccountFirst(s: Store, id: Id, amount: Amount, txId: Id, debitId: Id, creditId: Id)
    ensures var t := Transaction(txId, Some(id), id, amount);
            && TransactionProcessor.Transfer(s, t, debitId, creditId) == Outcome(s, Failure(SameAccount))
            && TransactionService.CreateTransaction(s, t, debitId, creditId) == Outcome(s, Failure(SameAccount))
  {
  }
}

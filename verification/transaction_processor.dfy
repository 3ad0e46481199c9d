/**
  TransactionProcessor.createTransaction: the mint branch (initial funding of a
  new wallet) and the transfer branch that locks both wallets in a canonical
  order before any balance check.

  Identifier generation is replaced by parameters: the transaction carries its
  own id, and `debitId` / `creditId` are the ids the generator would give the
  ledger entries (a mint writes one entry, with `creditId`).
 */
module TransactionProcessor {
  import opened Domain
  import WalletRepository
  import TransactionRepository
  import LedgerRepository

  /** Which wallet is locked first, which second, and whether the first is the source. */
  datatype LockPlan = LockPlan(first: Id, second: Id, isSourceFirst: bool)

  /** The canonical lock order: the smaller id first, whatever the direction. */
  function LockOrder(fromId: Id, toId: Id): (p: LockPlan)
    ensures {p.first, p.second} == {fromId, toId}
    ensures fromId != toId ==> p.first < p.second
    ensures (if p.isSourceFirst then p.first else p.second) == fromId
    ensures (if p.isSourceFirst then p.second else p.first) == toId
  {
    if fromId < toId then LockPlan(fromId, toId, true) else LockPlan(toId, fromId, false)
  }

  /** Two transfers over the same pair, in either direction, lock the same wallet
      first and the same wallet second. */
  lemma LockOrderSymmetric(a: Id, b: Id)
    requires a != b
    ensures LockOrder(a, b).first == LockOrder(b, a).first
    ensures LockOrder(a, b).second == LockOrder(b, a).second
    ensures LockOrder(a, b).isSourceFirst != LockOrder(b, a).isSourceFirst
  {
  }

  /** No two transfers can each hold the lock the other waits for: one would have
      to lock x before y and the other y before x, but both lock in ascending order. */
  lemma NoCrossedLocks(a: Id, b: Id, c: Id, d: Id)
    requires a != b && c != d
    ensures var p, q := LockOrder(a, b), LockOrder(c, d);
            !(p.first == q.second && p.second == q.first)
  {
  }

  /** The mint branch: a source-less transaction and one credit entry whose
      amount and running balance are both the minted amount. */
  function Mint(s: Store, t: Transaction, creditId: Id): (o: Outcome<TransactionResult>)
    ensures o.result == Success(TransactionResult(t.id, t.amount))
    ensures o.store.wallets == s.wallets && o.store.created == s.created
    ensures o.store.transactions == s.transactions + [t]
    ensures o.store.ledger == s.ledger + [LedgerEntry(creditId, t.id, t.toId, t.amount, t.amount)]
  {
    var (s1, txId) := TransactionRepository.CreateTransaction(s, t);
    var s2 := LedgerRepository.CreateLedgerEntry(s1, LedgerEntry(creditId, txId, t.toId, t.amount, t.amount));
    assert s2.ledger == s.ledger + [LedgerEntry(creditId, txId, t.toId, t.amount, t.amount)];
    Outcome(s2, Success(TransactionResult(txId, t.amount)))
  }

  /** What a successful transfer of `t` leaves behind: both balances moved, one
      transaction row, and a debit and a credit entry sharing the transaction id. */
  predicate TransferApplied(s: Store, t: Transaction, debitId: Id, creditId: Id, o: Outcome<TransactionResult>)
    requires t.fromId.Some? && t.fromId.value in s.wallets && t.toId in s.wallets
  {
    var from, to := t.fromId.value, t.toId;
    var newFrom := s.wallets[from].balance - t.amount;
    var newTo := s.wallets[to].balance + t.amount;
    && o.result == Success(TransactionResult(t.id, newFrom))
    && o.store.wallets == s.wallets[from := s.wallets[from].(balance := newFrom)][to := s.wallets[to].(balance := newTo)]
    && o.store.created == s.created
    && o.store.transactions == s.transactions + [t]
    && o.store.ledger == s.ledger + [LedgerEntry(debitId, t.id, from, -t.amount, newFrom),
                                     LedgerEntry(creditId, t.id, to, t.amount, newTo)]
  }

  /** The mutations every transfer variant performs once its checks have passed. */
  function Apply(s: Store, t: Transaction, debitId: Id, creditId: Id): (o: Outcome<TransactionResult>)
    requires t.fromId.Some? && t.fromId.value in s.wallets && t.toId in s.wallets && t.fromId.value != t.toId
    ensures TransferApplied(s, t, debitId, creditId, o)
  {
    var from := t.fromId.value;
    var (s1, sourceBalance) := WalletRepository.AdjustBalance(s, from, -t.amount);
    var (s2, destinationBalance) := WalletRepository.AdjustBalance(s1, t.toId, t.amount);
    var (s3, txId) := TransactionRepository.CreateTransaction(s2, t);
    var s4 := LedgerRepository.CreateLedgerEntry(s3, LedgerEntry(debitId, txId, from, -t.amount, sourceBalance));
    var s5 := LedgerRepository.CreateLedgerEntry(s4, LedgerEntry(creditId, txId, t.toId, t.amount, destinationBalance));
    assert s5.ledger == s.ledger + [LedgerEntry(debitId, txId, from, -t.amount, sourceBalance),
                                    LedgerEntry(creditId, txId, t.toId, t.amount, destinationBalance)];
    Outcome(s5, Success(TransactionResult(txId, sourceBalance)))
  }

  /** The transfer branch: same-account check, both wallets read in lock order,
      funds check against the source, then the mutations. */
  function Transfer(s: Store, t: Transaction, debitId: Id, creditId: Id): (o: Outcome<TransactionResult>)
    requires t.fromId.Some?
    ensures o.result.Failure? ==> o.store == s
    ensures var from, to := t.fromId.value, t.toId;
            && (from == to ==> o.result == Failure(SameAccount))
            && (from != to && Min(from, to) !in s.wallets ==> o.result == Failure(NotFound(Min(from, to))))
            && (from != to && Min(from, to) in s.wallets && Max(from, to) !in s.wallets ==>
                  o.result == Failure(NotFound(Max(from, to))))
            && (from != to && from in s.wallets && to in s.wallets && s.wallets[from].balance < t.amount ==>
                  o.result == Failure(InsufficientFunds))
            && (o.result.Success? <==>
                  from != to && from in s.wallets && to in s.wallets && s.wallets[from].balance >= t.amount)
            && (o.result.Success? ==> TransferApplied(s, t, debitId, creditId, o))
  {
    var from := t.fromId.value;
    if from == t.toId then Outcome(s, Failure(SameAccount))
    else
      var lock := LockOrder(from, t.toId);
      match WalletRepository.GetWalletById(s, lock.first, true)
      case None => Outcome(s, Failure(NotFound(lock.first)))
      case Some(firstWallet) =>
        match WalletRepository.GetWalletById(s, lock.second, true)
        case None => Outcome(s, Failure(NotFound(lock.second)))
        case Some(secondWallet) =>
          var sourceWallet := if lock.isSourceFirst then firstWallet else secondWallet;
          if sourceWallet.balance < t.amount then Outcome(s, Failure(InsufficientFunds))
          else Apply(s, t, debitId, creditId)
  }

  /** createTransaction(transaction, initial). The transfer branch dereferences
      the source id, so a non-initial transaction must name one. */
  function CreateTransaction(s: Store, t: Transaction, initial: bool, debitId: Id, creditId: Id): (o: Outcome<TransactionResult>)
    requires !initial ==> t.fromId.Some?
    ensures o.result.Failure? ==> o.store == s
    ensures initial ==>
              && o.result == Success(TransactionResult(t.id, t.amount))
              && o.store.wallets == s.wallets && o.store.created == s.created
              && o.store.transactions == s.transactions + [t]
              && o.store.ledger == s.ledger + [LedgerEntry(creditId, t.id, t.toId, t.amount, t.amount)]
    ensures !initial ==>
              var from, to := t.fromId.value, t.toId;
              && (from == to ==> o.result == Failure(SameAccount))
              && (from != to && Min(from, to) !in s.wallets ==> o.result == Failure(NotFound(Min(from, to))))
              && (from != to && Min(from, to) in s.wallets && Max(from, to) !in s.wallets ==>
                    o.result == Failure(NotFound(Max(from, to))))
              && (from != to && from in s.wallets && to in s.wallets && s.wallets[from].balance < t.amount ==>
                    o.result == Failure(InsufficientFunds))
              && (o.result.Success? <==>
                    from != to && from in s.wallets && to in s.wallets && s.wallets[from].balance >= t.amount)
              && (o.result.Success? ==> TransferApplied(s, t, debitId, creditId, o))
  {
    if initial then Mint(s, t, creditId) else Transfer(s, t, debitId, creditId)
  }

  /** Whenever the transfer succeeds, the wallet taken as the source (first or
      second by the lock plan) is the one named by fromId, so the funds check
      reads the source's balance and not the destination's. */
  lemma SourceSelection(s: Store, fromId: Id, toId: Id)
    requires fromId != toId && fromId in s.wallets && toId in s.wallets
    ensures var p := LockOrder(fromId, toId);
            (if p.isSourceFirst then s.wallets[p.first] else s.wallets[p.second]) == s.wallets[fromId]
  {
  }
}

/**
  The entities of the bookkeeping service and the abstract store they live in.

  Wallet, transaction and ledger identifiers are UUIDs in the service; here they
  are integers, since the only thing the core asks of them is a strict total
  order (for lock ordering) and equality. Amounts are `BigDecimal`; here they are
  exact rationals (`real`), which compare numerically just as `compareTo` does.
 */
module Domain {

  type Id = int
  type Amount = real

  /** Stand-in for a Java reference that may be null. */
  datatype Option<+T> = None | Some(value: T)

  /** The typed failures of the core (each one is an exception class in the service). */
  datatype Error =
    | SameAccount          // SameAccountTransferException
    | NotFound(id: Id)     // NotFoundException, naming the missing wallet
    | InsufficientFunds    // InsufficientFundsException
    | Unique               // UniqueException, or a unique-constraint violation of the store

  datatype Result<+T> = Success(value: T) | Failure(error: Error) {
    predicate IsFailure() { Failure? }

    function PropagateFailure<U>(): Result<U>
      requires Failure?
    {
      Failure(error)
    }

    function Extract(): T
      requires Success?
    {
      value
    }
  }

  /** A wallet row; `balance` is its only mutable column. */
  datatype Wallet = Wallet(id: Id, email: string, balance: Amount)

  /** A transaction row; `fromId` is absent exactly for a mint. */
  datatype Transaction = Transaction(id: Id, fromId: Option<Id>, toId: Id, amount: Amount)

  /** A ledger row: the signed effect of one transaction on one wallet,
      with the wallet's balance right after it. */
  datatype LedgerEntry = LedgerEntry(id: Id, transactionId: Id, walletId: Id, amount: Amount, runningBalance: Amount)

  /** What the processor hands back: the transaction id and a balance. */
  datatype TransactionResult = TransactionResult(transactionId: Id, newBalance: Amount)

  /** The whole persistent state. `created` lists wallet ids in creation order
      (the database orders wallets by their creation time); the transaction and
      ledger tables are append-only sequences in insertion order. */
  datatype Store = Store(
    wallets: map<Id, Wallet>,
    created: seq<Id>,
    transactions: seq<Transaction>,
    ledger: seq<LedgerEntry>)

  const Empty: Store := Store(map[], [], [], [])

  /** The result of one unit of work together with the store it leaves behind.
      A unit of work that fails is rolled back, so every operation below returns
      the store it was given whenever its result is a failure. */
  datatype Outcome<+T> = Outcome(store: Store, result: Result<T>)

  function Min(a: int, b: int): int { if a < b then a else b }

  function Max(a: int, b: int): int { if a < b then b else a }
}

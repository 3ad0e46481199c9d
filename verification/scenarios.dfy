/**
  Sequences of calls against the model: a run of transfers through the live
  path, what a run between two wallets does to their balances and ledgers, and
  the concrete situations the repository's own integration tests exercise
  (wallet creation and read-back, a single transfer, repeated and
  bidirectional transfers, paging through a history).
 */
module Scenarios {
  import opened Domain
  import opened Accounting
  import opened Invariants
  import Paging
  import WalletService
  import TransactionService
  import TransactionRepository
  import WalletRepository
  import LedgerRepository
  import History

  /** One call of the transfer endpoint; `debitId` and `creditId` stand for the
      generated ids of the two ledger rows. */
  datatype Request = Request(tx: Transaction, debitId: Id, creditId: Id)

  predicate HasSource(reqs: seq<Request>) {
    forall i :: 0 <= i < |reqs| ==> reqs[i].tx.fromId.Some?
  }

  /** The requests applied one after another; the run stops at the first failure
      and reports it. Every successful call only appends rows. */
  function RunTransfers(s: Store, reqs: seq<Request>): (r: Result<Store>)
    requires HasSource(reqs)
    ensures r.Success? ==>
              && r.value.created == s.created
              && r.value.wallets.Keys == s.wallets.Keys
              && |r.value.transactions| == |s.transactions| + |reqs|
              && |r.value.ledger| == |s.ledger| + 2 * |reqs|
              && s.transactions <= r.value.transactions
              && s.ledger <= r.value.ledger
    decreases |reqs|
  {
    if |reqs| == 0 then Success(s)
    else
      var q := reqs[0];
      var o := TransactionService.CreateTransaction(s, q.tx, q.debitId, q.creditId);
      if o.result.Failure? then Failure(o.result.error)
      else
        assert HasSource(reqs[1..]) by {
          assert forall i :: 0 <= i < |reqs[1..]| ==> reqs[1..][i] == reqs[i + 1];
        }
        RunTransfers(o.store, reqs[1..])
  }

  /** How many of the requests take money from wallet `a`. */
  function CountFrom(reqs: seq<Request>, a: Id): nat {
    if |reqs| == 0 then 0
    else (if reqs[0].tx.fromId == Some(a) then 1 else 0) + CountFrom(reqs[1..], a)
  }

  /** A transfer of `x` in either direction between wallets `a` and `b`. */
  predicate Between(q: Request, a: Id, b: Id, x: Amount) {
    && q.tx.amount == x
    && ((q.tx.fromId == Some(a) && q.tx.toId == b) || (q.tx.fromId == Some(b) && q.tx.toId == a))
  }

  predicate AllBetween(reqs: seq<Request>, a: Id, b: Id, x: Amount) {
    forall i :: 0 <= i < |reqs| ==> Between(reqs[i], a, b, x)
  }

  /** `n` transfers' worth of `x`. */
  function Times(n: nat, x: Amount): Amount {
    if n == 0 then 0.0 else Times(n - 1, x) + x
  }

  lemma {:induction false} TimesIsProduct(n: nat, x: Amount)
    ensures Times(n, x) == (n as real) * x
  {
    if n > 0 {
      TimesIsProduct(n - 1, x);
    }
  }

  lemma {:induction false} TimesNonNegative(n: nat, x: Amount)
    requires x >= 0.0
    ensures Times(n, x) >= 0.0
  {
    if n > 0 {
      TimesNonNegative(n - 1, x);
    }
  }

  /** One transfer of `x` between `a` and `b` that the sender can afford: it
      succeeds, moves `x`, and gives each of the two wallets one more entry. */
  lemma BetweenStep(s: Store, q: Request, a: Id, b: Id, x: Amount)
    requires a != b && a in s.wallets && b in s.wallets && Between(q, a, b, x)
    requires s.wallets[q.tx.fromId.value].balance >= x
    ensures var o := TransactionService.CreateTransaction(s, q.tx, q.debitId, q.creditId);
            && o.result.Success?
            && o.store.wallets.Keys == s.wallets.Keys
            && o.store.wallets[q.tx.fromId.value].balance == s.wallets[q.tx.fromId.value].balance - x
            && o.store.wallets[q.tx.toId].balance == s.wallets[q.tx.toId].balance + x
            && EntryCount(o.store.ledger, a) == EntryCount(s.ledger, a) + 1
            && EntryCount(o.store.ledger, b) == EntryCount(s.ledger, b) + 1
  {
    var o := TransactionService.CreateTransaction(s, q.tx, q.debitId, q.creditId);
    var from, to := q.tx.fromId.value, q.tx.toId;
    var d := LedgerEntry(q.debitId, q.tx.id, from, -x, s.wallets[from].balance - x);
    var c := LedgerEntry(q.creditId, q.tx.id, to, x, s.wallets[to].balance + x);
    assert o.store.ledger == (s.ledger + [d]) + [c];
    AppendEntry(s.ledger, d);
    AppendEntry(s.ledger + [d], c);
  }

  /** Transfers of `x` back and forth between two wallets all succeed as long as
      each wallet holds `x` for every transfer it sends; each wallet ends with
      its starting balance minus what it sent plus what it received, and gains
      one ledger entry per transfer. */
  lemma {:induction false} RunBetween(s: Store, reqs: seq<Request>, a: Id, b: Id, x: Amount)
    requires a != b && a in s.wallets && b in s.wallets && x >= 0.0
    requires AllBetween(reqs, a, b, x)
    requires s.wallets[a].balance >= Times(CountFrom(reqs, a), x)
    requires s.wallets[b].balance >= Times(CountFrom(reqs, b), x)
    ensures HasSource(reqs)
    ensures var r := RunTransfers(s, reqs);
            && r.Success?
            && a in r.value.wallets && b in r.value.wallets
            && r.value.wallets[a].balance
               == s.wallets[a].balance - Times(CountFrom(reqs, a), x) + Times(CountFrom(reqs, b), x)
            && r.value.wallets[b].balance
               == s.wallets[b].balance - Times(CountFrom(reqs, b), x) + Times(CountFrom(reqs, a), x)
            && EntryCount(r.value.ledger, a) == EntryCount(s.ledger, a) + |reqs|
            && EntryCount(r.value.ledger, b) == EntryCount(s.ledger, b) + |reqs|
    decreases |reqs|
  {
    assert HasSource(reqs) by {
      forall i | 0 <= i < |reqs| ensures reqs[i].tx.fromId.Some? {
        assert Between(reqs[i], a, b, x);
      }
    }
    if |reqs| > 0 {
      var q, rest := reqs[0], reqs[1..];
      assert Between(q, a, b, x);
      assert AllBetween(rest, a, b, x) by {
        assert forall i :: 0 <= i < |rest| ==> rest[i] == reqs[i + 1];
      }
      var ca, cb := CountFrom(rest, a), CountFrom(rest, b);
      TimesNonNegative(ca, x);
      TimesNonNegative(cb, x);
      if q.tx.fromId == Some(a) {
        assert CountFrom(reqs, a) == ca + 1 && CountFrom(reqs, b) == cb;
        assert Times(ca + 1, x) == Times(ca, x) + x;
      } else {
        assert CountFrom(reqs, b) == cb + 1 && CountFrom(reqs, a) == ca;
        assert Times(cb + 1, x) == Times(cb, x) + x;
      }
      BetweenStep(s, q, a, b, x);
      var s1 := TransactionService.CreateTransaction(s, q.tx, q.debitId, q.creditId).store;
      RunBetween(s1, rest, a, b, x);
      assert RunTransfers(s, reqs) == RunTransfers(s1, rest);
    }
  }

  /** Request ids above `floor`, no two alike. */
  predicate IdsAbove(reqs: seq<Request>, floor: Id) {
    && (forall i :: 0 <= i < |reqs| ==> reqs[i].tx.id > floor)
    && (forall i, j :: 0 <= i < j < |reqs| ==> reqs[i].tx.id != reqs[j].tx.id)
  }

  predicate FreshIds(s: Store, reqs: seq<Request>) {
    && (forall i :: 0 <= i < |reqs| ==> !TransactionRepository.HasTransaction(s.transactions, reqs[i].tx.id))
    && (forall i, j :: 0 <= i < j < |reqs| ==> reqs[i].tx.id != reqs[j].tx.id)
  }

  /** Fresh ids stay fresh for the rest of the run after the first request,
      whether or not it appended its transaction. */
  lemma FreshTail(s: Store, reqs: seq<Request>, s': Store)
    requires |reqs| > 0 && FreshIds(s, reqs)
    requires s'.transactions == s.transactions || s'.transactions == s.transactions + [reqs[0].tx]
    ensures FreshIds(s', reqs[1..])
  {
    var rest := reqs[1..];
    forall i | 0 <= i < |rest|
      ensures !TransactionRepository.HasTransaction(s'.transactions, rest[i].tx.id)
    {
      assert rest[i] == reqs[i + 1];
      assert !TransactionRepository.HasTransaction(s.transactions, rest[i].tx.id);
    }
    forall i, j | 0 <= i < j < |rest| ensures rest[i].tx.id != rest[j].tx.id {
      assert rest[i] == reqs[i + 1] && rest[j] == reqs[j + 1];
    }
  }

  /** The first request of a run keeps the store valid, and the rest of the run
      starts from its store with ids still fresh. */
  lemma RunStep(s: Store, reqs: seq<Request>)
    requires Valid(s) && HasSource(reqs) && FreshIds(s, reqs)
    requires |reqs| > 0 && reqs[0].tx.amount >= 1.0
    ensures HasSource(reqs[1..])
    ensures var o := TransactionService.CreateTransaction(s, reqs[0].tx, reqs[0].debitId, reqs[0].creditId);
            && Valid(o.store)
            && TotalBalance(o.store.wallets, o.store.created) == TotalBalance(s.wallets, s.created)
            && FreshIds(o.store, reqs[1..])
            && (o.result.Success? ==> RunTransfers(s, reqs) == RunTransfers(o.store, reqs[1..]))
  {
    var q := reqs[0];
    assert forall i :: 0 <= i < |reqs[1..]| ==> reqs[1..][i] == reqs[i + 1];
    ServiceTransferKeepsValid(s, q.tx, q.debitId, q.creditId);
    var o := TransactionService.CreateTransaction(s, q.tx, q.debitId, q.creditId);
    FreshTail(s, reqs, o.store);
  }

  predicate AmountsAtLeastOne(reqs: seq<Request>) {
    forall i :: 0 <= i < |reqs| ==> reqs[i].tx.amount >= 1.0
  }

  /** A run of transfers with fresh ids and amounts of at least one keeps the
      store valid and the total of all balances unchanged. */
  lemma {:induction false} RunKeepsValid(s: Store, reqs: seq<Request>)
    requires Valid(s) && HasSource(reqs) && FreshIds(s, reqs) && AmountsAtLeastOne(reqs)
    ensures var r := RunTransfers(s, reqs);
            r.Success? ==>
              Valid(r.value) && TotalBalance(r.value.wallets, r.value.created) == TotalBalance(s.wallets, s.created)
    decreases |reqs|
  {
    if |reqs| > 0 {
      var rest := reqs[1..];
      var o := TransactionService.CreateTransaction(s, reqs[0].tx, reqs[0].debitId, reqs[0].creditId);
      RunStep(s, reqs);
      assert AmountsAtLeastOne(rest) by {
        assert forall i :: 0 <= i < |rest| ==> rest[i] == reqs[i + 1];
      }
      RunKeepsValid(o.store, rest);
    }
  }

  // ------------------------------------------------------------ two wallets

  const EmailA: string := "alice@example.com"
  const EmailB: string := "bob@example.com"

  /** The store after creating wallet 1 with `a`. */
  function OneWallet(a: Amount): Store {
    Store(map[1 := Wallet(1, EmailA, a)], [1], [Transaction(101, None, 1, a)], [LedgerEntry(201, 101, 1, a, a)])
  }

  /** The store after creating wallet 1 with `a` and then wallet 2 with `b`. */
  function TwoWallets(a: Amount, b: Amount): Store {
    Store(map[1 := Wallet(1, EmailA, a), 2 := Wallet(2, EmailB, b)], [1, 2],
          [Transaction(101, None, 1, a), Transaction(102, None, 2, b)],
          [LedgerEntry(201, 101, 1, a, a), LedgerEntry(202, 102, 2, b, b)])
  }

  /** Creating the two wallets through the service, one after the other, yields
      exactly those stores. */
  lemma TwoWalletsCreated(a: Amount, b: Amount)
    ensures WalletService.CreateWallet(Empty, Wallet(1, EmailA, a), 101, 201) == Outcome(OneWallet(a), Success(1))
    ensures WalletService.CreateWallet(OneWallet(a), Wallet(2, EmailB, b), 102, 202) == Outcome(TwoWallets(a, b), Success(2))
  {
    assert !WalletRepository.EmailTaken(OneWallet(a), EmailB);
  }

  lemma OneWalletValid(a: Amount)
    requires a >= 1.0
    ensures Valid(OneWallet(a))
  {
    EmptyValid();
    TwoWalletsCreated(a, a);
    CreateWalletKeepsValid(Empty, Wallet(1, EmailA, a), 101, 201);
  }

  /** The two-wallet store satisfies every invariant, and each wallet has its
      one mint entry. */
  lemma TwoWalletsValid(a: Amount, b: Amount)
    requires a >= 1.0 && b >= 1.0
    ensures Valid(TwoWallets(a, b))
    ensures EntryCount(TwoWallets(a, b).ledger, 1) == 1 && EntryCount(TwoWallets(a, b).ledger, 2) == 1
  {
    var s1 := OneWallet(a);
    OneWalletValid(a);
    TwoWalletsCreated(a, b);
    assert !TransactionRepository.HasTransaction(s1.transactions, 102);
    CreateWalletKeepsValid(s1, Wallet(2, EmailB, b), 102, 202);
    var e1 := s1.ledger[0];
    assert TwoWallets(a, b).ledger[..1] == [e1] && [e1][..0] == [];
    assert EntryCount([e1], 1) == 1 && EntryCount([e1], 2) == 0;
  }

  /** The two wallets together hold what was minted for them. */
  lemma TwoWalletsTotal(a: Amount, b: Amount)
    ensures TotalBalance(TwoWallets(a, b).wallets, TwoWallets(a, b).created) == a + b
  {
    var s := TwoWallets(a, b);
    assert s.created[..1] == [1] && [1][..0] == [];
    assert TotalBalance(s.wallets, [1]) == Balance(s.wallets, 1) == a;
    assert Balance(s.wallets, 2) == b;
  }

  // -------------------------------------------------------------- scenarios

  /** A wallet created with 100 reads back with balance 100 and its email; a
      second wallet with the same email is refused and changes nothing. */
  lemma CreateThenRead()
    ensures var o := WalletService.CreateWallet(Empty, Wallet(1, EmailA, 100.0), 101, 201);
            && o.result == Success(1)
            && WalletService.GetWalletById(o.store, 1, false) == Success(Wallet(1, EmailA, 100.0))
            && WalletService.CreateWallet(o.store, Wallet(2, EmailA, 5.0), 102, 202) == Outcome(o.store, Failure(Unique))
  {
    var o := WalletService.CreateWallet(Empty, Wallet(1, EmailA, 100.0), 101, 201);
    assert o.store.created == [1] && o.store.wallets[1].email == EmailA;
  }

  /** Wallets with 100 and 1; moving 50 returns the source's new balance 50,
      leaves the destination with 51, and tops each history with the signed row. */
  lemma TransferFifty()
    ensures var s := TwoWallets(100.0, 1.0);
            var t := Transaction(301, Some(1), 2, 50.0);
            var o := TransactionService.CreateTransaction(s, t, 401, 402);
            && o.result == Success(TransactionResult(301, 50.0))
            && o.store.wallets[1].balance == 50.0 && o.store.wallets[2].balance == 51.0
            && |TransactionService.GetTransactionByWalletId(o.store, 1, None, None)| >= 1
            && TransactionService.GetTransactionByWalletId(o.store, 1, None, None)[0].amount == -50.0
            && |TransactionService.GetTransactionByWalletId(o.store, 2, None, None)| >= 1
            && TransactionService.GetTransactionByWalletId(o.store, 2, None, None)[0].amount == 50.0
  {
    var s := TwoWallets(100.0, 1.0);
    var t := Transaction(301, Some(1), 2, 50.0);
    assert !TransactionRepository.HasTransaction(s.transactions, 301);
    History.TransferHistory(s, t, 401, 402);
  }

  /** The refusals of the same pair: too little money, an unknown wallet, the
      same wallet on both sides; none of them changes the store. */
  lemma TransferRefusals()
    ensures var s := TwoWallets(100.0, 1.0);
            && TransactionService.CreateTransaction(s, Transaction(301, Some(2), 1, 50.0), 401, 402)
               == Outcome(s, Failure(InsufficientFunds))
            && TransactionService.CreateTransaction(s, Transaction(301, Some(1), 99, 50.0), 401, 402)
               == Outcome(s, Failure(NotFound(99)))
            && TransactionService.CreateTransaction(s, Transaction(301, Some(1), 1, 50.0), 401, 402)
               == Outcome(s, Failure(SameAccount))
  {
  }

  /** A run keeps every ledger entry linked to an existing wallet and transaction. */
  lemma {:induction false} RunKeepsLinked(s: Store, reqs: seq<Request>)
    requires EntriesLinked(s) && HasSource(reqs) && FreshIds(s, reqs) && AmountsAtLeastOne(reqs)
    ensures var r := RunTransfers(s, reqs);
            r.Success? ==> EntriesLinked(r.value)
    decreases |reqs|
  {
    if |reqs| > 0 {
      var q, rest := reqs[0], reqs[1..];
      var o := TransactionService.CreateTransaction(s, q.tx, q.debitId, q.creditId);
      if o.result.Success? {
        TransferKeepsLinks(s, q.tx, q.debitId, q.creditId, o);
        FreshTail(s, reqs, o.store);
        assert HasSource(rest) && AmountsAtLeastOne(rest) by {
          assert forall i :: 0 <= i < |rest| ==> rest[i] == reqs[i + 1];
        }
        RunKeepsLinked(o.store, rest);
        assert RunTransfers(s, reqs) == RunTransfers(o.store, rest);
      }
    }
  }

  /** Transfers of at least one each. */
  lemma BetweenAtLeastOne(reqs: seq<Request>, a: Id, b: Id, x: Amount)
    requires AllBetween(reqs, a, b, x) && x >= 1.0
    ensures AmountsAtLeastOne(reqs)
  {
    forall i | 0 <= i < |reqs| ensures reqs[i].tx.amount >= 1.0 {
      assert Between(reqs[i], a, b, x);
    }
  }

  /** A store whose entries are linked shows each wallet as many history rows
      as asked for, newest first from the start, up to its ledger entries. */
  lemma LinkedHistory(r: Store, w: Id, limit: Option<int>)
    requires EntriesLinked(r)
    ensures |TransactionService.GetTransactionByWalletId(r, w, limit, None)|
            == Min(Paging.NormalizeLimit(limit), EntryCount(r.ledger, w))
  {
    History.HistoryPageLength(r, w, limit, None);
  }

  /** After a run, the newest rows of any wallet's history number as many as
      asked for, up to its ledger entries. */
  lemma RunHistory(s: Store, reqs: seq<Request>, w: Id, limit: Option<int>)
    requires EntriesLinked(s) && HasSource(reqs) && FreshIds(s, reqs) && AmountsAtLeastOne(reqs)
    ensures var r := RunTransfers(s, reqs);
            r.Success? ==>
              |TransactionService.GetTransactionByWalletId(r.value, w, limit, None)|
              == Min(Paging.NormalizeLimit(limit), EntryCount(r.value.ledger, w))
  {
    RunKeepsLinked(s, reqs);
    var r := RunTransfers(s, reqs);
    if r.Success? {
      assert EntriesLinked(r.value);
      LinkedHistory(r.value, w, limit);
    }
  }

  /** A run between two wallets whose entries are linked, with fresh ids and amounts of
      at least one, succeeds and each wallet's history grows by one row per
      transfer. */
  lemma RunBetweenHistory(s: Store, reqs: seq<Request>, a: Id, b: Id, x: Amount, limit: Option<int>)
    requires EntriesLinked(s) && a != b && a in s.wallets && b in s.wallets && x >= 1.0
    requires AllBetween(reqs, a, b, x)
    requires s.wallets[a].balance >= Times(CountFrom(reqs, a), x)
    requires s.wallets[b].balance >= Times(CountFrom(reqs, b), x)
    requires FreshIds(s, reqs)
    ensures HasSource(reqs)
    ensures var r := RunTransfers(s, reqs);
            && r.Success?
            && |TransactionService.GetTransactionByWalletId(r.value, a, limit, None)|
               == Min(Paging.NormalizeLimit(limit), EntryCount(s.ledger, a) + |reqs|)
            && |TransactionService.GetTransactionByWalletId(r.value, b, limit, None)|
               == Min(Paging.NormalizeLimit(limit), EntryCount(s.ledger, b) + |reqs|)
  {
    RunBetween(s, reqs, a, b, x);
    BetweenAtLeastOne(reqs, a, b, x);
    RunKeepsLinked(s, reqs);
    var r := RunTransfers(s, reqs).value;
    assert EntriesLinked(r);
    assert EntryCount(r.ledger, a) == EntryCount(s.ledger, a) + |reqs|;
    assert EntryCount(r.ledger, b) == EntryCount(s.ledger, b) + |reqs|;
    LinkedHistory(r, a, limit);
    LinkedHistory(r, b, limit);
  }

  /** Request ids above the two mints' ids are fresh in the two-wallet store. */
  lemma FreshAfterTwoWallets(a: Amount, b: Amount, reqs: seq<Request>)
    requires IdsAbove(reqs, 102)
    ensures FreshIds(TwoWallets(a, b), reqs)
  {
    var txs := TwoWallets(a, b).transactions;
    forall i | 0 <= i < |reqs| ensures !TransactionRepository.HasTransaction(txs, reqs[i].tx.id) {
      assert txs[0].id == 101 && txs[1].id == 102;
    }
  }

  /** Transfers that all go from `a` to `b`: as long as `a` holds them all,
      every one succeeds and `b` ends up with exactly what `a` gave. */
  lemma OneWay(s: Store, reqs: seq<Request>, a: Id, b: Id, x: Amount)
    requires a != b && a in s.wallets && b in s.wallets && x >= 0.0
    requires AllFromTo(reqs, a, b, x)
    requires s.wallets[a].balance >= Times(|reqs|, x) && s.wallets[b].balance >= 0.0
    ensures HasSource(reqs)
    ensures var r := RunTransfers(s, reqs);
            && r.Success?
            && r.value.wallets[a].balance == s.wallets[a].balance - Times(|reqs|, x)
            && r.value.wallets[b].balance == s.wallets[b].balance + Times(|reqs|, x)
            && EntryCount(r.value.ledger, b) == EntryCount(s.ledger, b) + |reqs|
  {
    assert AllBetween(reqs, a, b, x);
    AllFrom(reqs, a, b);
    assert Times(CountFrom(reqs, b), x) == 0.0;
    RunBetween(s, reqs, a, b, x);
  }

  /** Ten transfers of 10 from a wallet holding 1000 to one holding 1 leave 900
      and 101. */
  lemma TenTransfers(reqs: seq<Request>)
    requires |reqs| == 10
    requires AllFromTo(reqs, 1, 2, 10.0)
    ensures HasSource(reqs)
    ensures var r := RunTransfers(TwoWallets(1000.0, 1.0), reqs);
            && r.Success?
            && r.value.wallets[1].balance == 900.0 && r.value.wallets[2].balance == 101.0
  {
    TimesIsProduct(10, 10.0);
    OneWay(TwoWallets(1000.0, 1.0), reqs, 1, 2, 10.0);
  }

  /** After those ten transfers the destination's history holds 11 rows: its
      mint and one credit per transfer. */
  lemma TenTransfersHistory(reqs: seq<Request>)
    requires |reqs| == 10
    requires AllFromTo(reqs, 1, 2, 10.0)
    requires IdsAbove(reqs, 102)
    ensures HasSource(reqs)
    ensures var r := RunTransfers(TwoWallets(1000.0, 1.0), reqs);
            && r.Success?
            && |TransactionService.GetTransactionByWalletId(r.value, 2, Some(11), None)| == 11
  {
    var s := TwoWallets(1000.0, 1.0);
    assert EntriesLinked(s) && EntryCount(s.ledger, 2) == 1 by {
      TwoWalletsValid(1000.0, 1.0);
    }
    assert AllBetween(reqs, 1, 2, 10.0);
    assert Times(CountFrom(reqs, 1), 10.0) == 100.0 && Times(CountFrom(reqs, 2), 10.0) == 0.0 by {
      AllFrom(reqs, 1, 2);
      TimesIsProduct(10, 10.0);
    }
    FreshAfterTwoWallets(1000.0, 1.0, reqs);
    RunBetweenHistory(s, reqs, 1, 2, 10.0, Some(11));
  }

  /** Every request moves `x` from `a` to `b`. */
  predicate AllFromTo(reqs: seq<Request>, a: Id, b: Id, x: Amount) {
    forall i :: 0 <= i < |reqs| ==> reqs[i].tx.fromId == Some(a) && reqs[i].tx.toId == b && reqs[i].tx.amount == x
  }

  /** When every request sends from `a`, all of them count for `a` and none for `b`. */
  lemma {:induction false} AllFrom(reqs: seq<Request>, a: Id, b: Id)
    requires a != b
    requires forall i :: 0 <= i < |reqs| ==> reqs[i].tx.fromId == Some(a)
    ensures CountFrom(reqs, a) == |reqs| && CountFrom(reqs, b) == 0
  {
    if |reqs| > 0 {
      assert forall i :: 0 <= i < |reqs[1..]| ==> reqs[1..][i] == reqs[i + 1];
      AllFrom(reqs[1..], a, b);
    }
  }

  /** Fifty transfers of 10 each way between two wallets of 1000, in any order,
      leave both at 1000 and the total at 2000. */
  lemma Bidirectional(reqs: seq<Request>)
    requires |reqs| == 100
    requires AllBetween(reqs, 1, 2, 10.0)
    requires CountFrom(reqs, 1) == 50 && CountFrom(reqs, 2) == 50
    requires IdsAbove(reqs, 102)
    ensures HasSource(reqs)
    ensures var r := RunTransfers(TwoWallets(1000.0, 1000.0), reqs);
            && r.Success?
            && r.value.wallets[1].balance == 1000.0 && r.value.wallets[2].balance == 1000.0
            && TotalBalance(r.value.wallets, r.value.created) == 2000.0
  {
    var s := TwoWallets(1000.0, 1000.0);
    TwoWalletsValid(1000.0, 1000.0);
    TimesIsProduct(50, 10.0);
    assert Times(CountFrom(reqs, 1), 10.0) == 500.0 && Times(CountFrom(reqs, 2), 10.0) == 500.0;
    FreshAfterTwoWallets(1000.0, 1000.0, reqs);
    RunBetween(s, reqs, 1, 2, 10.0);
    BetweenAtLeastOne(reqs, 1, 2, 10.0);
    RunKeepsValid(s, reqs);
    TwoWalletsTotal(1000.0, 1000.0);
    var r := RunTransfers(s, reqs);
    assert r.value.wallets[1].balance == 1000.0 - 500.0 + 500.0;
    assert r.value.wallets[2].balance == 1000.0 - 500.0 + 500.0;
  }

  /** After those hundred transfers each wallet's history holds 101 rows: its
      mint and one row per transfer. */
  lemma BidirectionalHistory(reqs: seq<Request>)
    requires |reqs| == 100
    requires AllBetween(reqs, 1, 2, 10.0)
    requires CountFrom(reqs, 1) == 50 && CountFrom(reqs, 2) == 50
    requires IdsAbove(reqs, 102)
    ensures HasSource(reqs)
    ensures var r := RunTransfers(TwoWallets(1000.0, 1000.0), reqs);
            && r.Success?
            && |TransactionService.GetTransactionByWalletId(r.value, 1, Some(101), None)| == 101
            && |TransactionService.GetTransactionByWalletId(r.value, 2, Some(101), None)| == 101
  {
    var s := TwoWallets(1000.0, 1000.0);
    assert EntriesLinked(s) && EntryCount(s.ledger, 1) == 1 && EntryCount(s.ledger, 2) == 1 by {
      TwoWalletsValid(1000.0, 1000.0);
    }
    TimesIsProduct(50, 10.0);
    FreshAfterTwoWallets(1000.0, 1000.0, reqs);
    RunBetweenHistory(s, reqs, 1, 2, 10.0, Some(101));
    var r := RunTransfers(s, reqs);
    assert |TransactionService.GetTransactionByWalletId(r.value, 1, Some(101), None)| == Min(101, 1 + 100);
    assert |TransactionService.GetTransactionByWalletId(r.value, 2, Some(101), None)| == Min(101, 1 + 100);
  }

  /** A linked history of six rows read two at a time: offsets 0, 2 and 4 give
      two rows each, offset 6 gives none, and the first two pages together are
      the first four rows. */
  lemma SixRowPages(r: Store, w: Id)
    requires EntriesLinked(r) && EntryCount(r.ledger, w) == 6
    ensures |TransactionService.GetTransactionByWalletId(r, w, Some(2), Some(0))| == 2
    ensures |TransactionService.GetTransactionByWalletId(r, w, Some(2), Some(2))| == 2
    ensures |TransactionService.GetTransactionByWalletId(r, w, Some(2), Some(4))| == 2
    ensures TransactionService.GetTransactionByWalletId(r, w, Some(2), Some(6)) == []
    ensures TransactionService.GetTransactionByWalletId(r, w, Some(2), Some(0))
            + TransactionService.GetTransactionByWalletId(r, w, Some(2), Some(2))
            == TransactionService.GetTransactionByWalletId(r, w, Some(4), Some(0))
  {
    var rows := TransactionRepository.Joined(r.transactions, LedgerRepository.EntriesOf(r.ledger, w));
    History.HistoryComplete(r, w);
    assert |rows| == 6;
    Paging.PagesAreConsecutive(rows, 2, 0);
    Paging.PagesAreConsecutive(rows, 2, 2);
    Paging.PagesAreConsecutive(rows, 2, 4);
  }

  /** Wallets with 100 and 1 and five transfers of 10 from the first to the
      second: the source's history of six rows (its mint and five debits) reads
      two rows at offsets 0, 2 and 4 and nothing at offset 6, and the first two
      pages line up with one page of four. */
  lemma PagedHistory(reqs: seq<Request>)
    requires |reqs| == 5
    requires AllFromTo(reqs, 1, 2, 10.0)
    requires IdsAbove(reqs, 102)
    ensures HasSource(reqs)
    ensures var r := RunTransfers(TwoWallets(100.0, 1.0), reqs);
            && r.Success?
            && |TransactionService.GetTransactionByWalletId(r.value, 1, Some(2), Some(0))| == 2
            && |TransactionService.GetTransactionByWalletId(r.value, 1, Some(2), Some(2))| == 2
            && |TransactionService.GetTransactionByWalletId(r.value, 1, Some(2), Some(4))| == 2
            && TransactionService.GetTransactionByWalletId(r.value, 1, Some(2), Some(6)) == []
            && TransactionService.GetTransactionByWalletId(r.value, 1, Some(2), Some(0))
               + TransactionService.GetTransactionByWalletId(r.value, 1, Some(2), Some(2))
               == TransactionService.GetTransactionByWalletId(r.value, 1, Some(4), Some(0))
  {
    var s := TwoWallets(100.0, 1.0);
    assert EntriesLinked(s) && EntryCount(s.ledger, 1) == 1 by {
      TwoWalletsValid(100.0, 1.0);
    }
    assert AllBetween(reqs, 1, 2, 10.0);
    assert Times(CountFrom(reqs, 1), 10.0) == 50.0 && Times(CountFrom(reqs, 2), 10.0) == 0.0 by {
      AllFrom(reqs, 1, 2);
      TimesIsProduct(5, 10.0);
    }
    FreshAfterTwoWallets(100.0, 1.0, reqs);
    RunBetween(s, reqs, 1, 2, 10.0);
    BetweenAtLeastOne(reqs, 1, 2, 10.0);
    RunKeepsLinked(s, reqs);
    var r := RunTransfers(s, reqs).value;
    assert EntriesLinked(r);
    assert EntryCount(r.ledger, 1) == 6;
    SixRowPages(r, 1);
  }
}

/**
  The wallet table (WalletRepository): insertion, lookup by id and by email,
  the paged listing, and the single-statement balance adjustment.
 */
module WalletRepository {
  import opened Domain
  import Paging

  /** Some wallet of the store already carries `email` (the wallet_email_key constraint). */
  predicate EmailTaken(s: Store, email: string) {
    exists id :: id in s.wallets && s.wallets[id].email == email
  }

  /** INSERT of a new wallet row. The table's two unique constraints (primary key
      and email) turn a duplicate into a unique-violation failure. */
  function CreateWallet(s: Store, w: Wallet): (o: Outcome<Id>)
    ensures o.result.Failure? <==> w.id in s.wallets || EmailTaken(s, w.email)
    ensures o.result.Failure? ==> o.result.error == Unique && o.store == s
    ensures o.result.Success? ==>
              && o.result.value == w.id
              && w.id in o.store.wallets && o.store.wallets[w.id] == w
              && o.store.wallets.Keys == s.wallets.Keys + {w.id}
              && (forall id :: id in s.wallets ==> o.store.wallets[id] == s.wallets[id])
              && o.store.created == s.created + [w.id]
              && o.store.transactions == s.transactions
              && o.store.ledger == s.ledger
  {
    if w.id in s.wallets || EmailTaken(s, w.email) then
      Outcome(s, Failure(Unique))
    else
      Outcome(s.(wallets := s.wallets[w.id := w], created := s.created + [w.id]), Success(w.id))
  }

  /** SELECT by id, with or without FOR UPDATE. Row locking is a concurrency
      concern only; sequentially both reads see the same row. */
  function GetWalletById(s: Store, id: Id, rowLock: bool): (r: Option<Wallet>)
    ensures r.Some? <==> id in s.wallets
    ensures r.Some? ==> r.value == s.wallets[id]
  {
    if id in s.wallets then Some(s.wallets[id]) else None
  }

  lemma RowLockIrrelevant(s: Store, id: Id)
    ensures GetWalletById(s, id, true) == GetWalletById(s, id, false)
  {
  }

  /** UPDATE ... SET balance = balance + delta ... RETURNING balance. The statement
      expects exactly one row, so the wallet must exist. */
  function AdjustBalance(s: Store, id: Id, delta: Amount): (r: (Store, Amount))
    requires id in s.wallets
    ensures r.1 == s.wallets[id].balance + delta
    ensures id in r.0.wallets && r.0.wallets[id] == s.wallets[id].(balance := r.1)
    ensures r.0.wallets.Keys == s.wallets.Keys
    ensures forall other :: other in s.wallets && other != id ==> r.0.wallets[other] == s.wallets[other]
    ensures r.0.created == s.created && r.0.transactions == s.transactions && r.0.ledger == s.ledger
  {
    var w := s.wallets[id];
    var balance := w.balance + delta;
    (s.(wallets := s.wallets[id := w.(balance := balance)]), balance)
  }

  /** Walks `ids` oldest first and returns the first wallet carrying `email`. */
  function FindByEmail(wallets: map<Id, Wallet>, ids: seq<Id>, email: string): (r: Option<Wallet>)
    ensures r.Some? ==> r.value.email == email && exists i :: 0 <= i < |ids| && ids[i] in wallets && wallets[ids[i]] == r.value
    ensures r.None? <==> forall i :: 0 <= i < |ids| && ids[i] in wallets ==> wallets[ids[i]].email != email
  {
    if |ids| == 0 then None
    else if ids[0] in wallets && wallets[ids[0]].email == email then Some(wallets[ids[0]])
    else
      var r := FindByEmail(wallets, ids[1..], email);
      assert forall i :: 1 <= i < |ids| ==> ids[i] == ids[1..][i - 1];
      r
  }

  /** SELECT by email. The rows are searched in insertion order; a wallet found
      always carries the email, and when every wallet is listed in `created` (as
      in every store the operations build) the lookup misses exactly when no
      wallet carries it. */
  function GetWalletByEmail(s: Store, email: string): (r: Option<Wallet>)
    ensures r.Some? ==> r.value.email == email && exists i :: 0 <= i < |s.created| && s.created[i] in s.wallets && s.wallets[s.created[i]] == r.value
    ensures r.None? <==> forall i :: 0 <= i < |s.created| && s.created[i] in s.wallets ==> s.wallets[s.created[i]].email != email
    ensures r.Some? ==> EmailTaken(s, email)
    ensures (forall id :: id in s.wallets ==> id in s.created) ==> (r.None? <==> !EmailTaken(s, email))
  {
    var r := FindByEmail(s.wallets, s.created, email);
    assert r.Some? ==> EmailTaken(s, email) by {
      if r.Some? {
        var i :| 0 <= i < |s.created| && s.created[i] in s.wallets && s.wallets[s.created[i]] == r.value;
        var id := s.created[i];
        assert id in s.wallets && s.wallets[id].email == email;
      }
    }
    assert (forall id :: id in s.wallets ==> id in s.created) && EmailTaken(s, email) ==> r.Some? by {
      if (forall id :: id in s.wallets ==> id in s.created) && EmailTaken(s, email) {
        var id :| id in s.wallets && s.wallets[id].email == email;
        var i :| 0 <= i < |s.created| && s.created[i] == id;
      }
    }
    r
  }

  /** The wallets of `ids`, in that order, skipping ids without a row. */
  function Listed(wallets: map<Id, Wallet>, ids: seq<Id>): (r: seq<Wallet>)
    ensures |r| <= |ids|
    ensures (forall i :: 0 <= i < |ids| ==> ids[i] in wallets) ==>
              |r| == |ids| && forall i :: 0 <= i < |ids| ==> r[i] == wallets[ids[i]]
  {
    if |ids| == 0 then []
    else
      var rest := Listed(wallets, ids[..|ids| - 1]);
      var last := ids[|ids| - 1];
      if last in wallets then rest + [wallets[last]] else rest
  }

  /** The paged listing of all wallets, newest first. */
  function GetWallets(s: Store, limit: Option<int>, offset: Option<int>): (r: seq<Wallet>)
    ensures |r| <= Paging.NormalizeLimit(limit)
    ensures (forall i :: 0 <= i < |s.created| ==> s.created[i] in s.wallets) ==>
              && |r| == Min(Paging.NormalizeLimit(limit), Max(0, |s.created| - Paging.NormalizeOffset(offset)))
              && forall i :: 0 <= i < |r| ==>
                   r[i] == s.wallets[s.created[|s.created| - 1 - Paging.NormalizeOffset(offset) - i]]
  {
    Paging.Page(Listed(s.wallets, s.created), limit, offset)
  }
}

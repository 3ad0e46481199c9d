/**
  The limit/offset handling shared by the three list reads of the stores
  (wallets, ledger entries of a wallet, transactions of a wallet): a missing or
  non-positive limit becomes 10, a missing or negative offset becomes 0, and the
  rows come back newest first with `offset` rows skipped and at most `limit` kept.
 */
module Paging {
  import opened Domain

  const DefaultLimit: int := 10

  function NormalizeLimit(limit: Option<int>): (n: int)
    ensures n >= 1
    ensures limit.Some? && limit.value > 0 ==> n == limit.value
    ensures limit.None? || limit.value <= 0 ==> n == DefaultLimit
  {
    if limit.None? || limit.value <= 0 then DefaultLimit else limit.value
  }

  function NormalizeOffset(offset: Option<int>): (n: int)
    ensures n >= 0
    ensures offset.Some? && offset.value >= 0 ==> n == offset.value
    ensures offset.None? || offset.value < 0 ==> n == 0
  {
    if offset.None? || offset.value < 0 then 0 else offset.value
  }

  /** Rows in reverse insertion order: the ORDER BY created_at DESC of the stores. */
  function NewestFirst<T>(rows: seq<T>): (r: seq<T>)
    ensures |r| == |rows|
    ensures forall i :: 0 <= i < |rows| ==> r[i] == rows[|rows| - 1 - i]
  {
    if |rows| == 0 then [] else [rows[|rows| - 1]] + NewestFirst(rows[..|rows| - 1])
  }

  /** One page of `rows` (given oldest first): LIMIT and OFFSET over the newest-first order. */
  function Page<T>(rows: seq<T>, limit: Option<int>, offset: Option<int>): (r: seq<T>)
    ensures |r| <= NormalizeLimit(limit)
    ensures |r| == Min(NormalizeLimit(limit), Max(0, |rows| - NormalizeOffset(offset)))
    ensures forall i :: 0 <= i < |r| ==> r[i] == rows[|rows| - 1 - NormalizeOffset(offset) - i]
  {
    var newest := NewestFirst(rows);
    var lim := NormalizeLimit(limit);
    var off := NormalizeOffset(offset);
    if off >= |newest| then [] else newest[off .. Min(off + lim, |newest|)]
  }

  /** Consecutive pages tile the newest-first order: a full page is followed by the
      rows right after it, so pages at offsets 0, k, 2k, ... neither overlap nor skip. */
  lemma PagesAreConsecutive<T>(rows: seq<T>, k: int, off: int)
    requires k >= 1 && off >= 0
    requires off + k <= |rows|
    ensures |Page(rows, Some(k), Some(off))| == k
    ensures Page(rows, Some(k), Some(off)) + Page(rows, Some(k), Some(off + k))
         == Page(rows, Some(2 * k), Some(off))
  {
    var a := Page(rows, Some(k), Some(off));
    var b := Page(rows, Some(k), Some(off + k));
    var c := Page(rows, Some(2 * k), Some(off));
    assert |a + b| == |c|;
    forall i | 0 <= i < |c|
      ensures (a + b)[i] == c[i]
    {
      if i < k {
        assert (a + b)[i] == a[i];
      } else {
        assert (a + b)[i] == b[i - k];
      }
    }
  }
}

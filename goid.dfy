/**
 * goid.go: the counter that hands out goroutine ids to callers of the lock
 * API. `lastId` starts at 1 and every call adds one and returns the new value,
 * with the two's-complement wrap-around of Go's int64 arithmetic.
 */
module GoroutineIds {

  const Int64Min: int := -0x8000_0000_0000_0000
  const Int64Max: int := 0x7FFF_FFFF_FFFF_FFFF

  /** Go's int64 wrap-around of an exact sum. */
  function WrapInt64(x: int): (r: int)
    ensures Int64Min <= r <= Int64Max
    ensures Int64Min <= x <= Int64Max ==> r == x
    ensures (r - x) % 0x1_0000_0000_0000_0000 == 0
  {
    (x - Int64Min) % 0x1_0000_0000_0000_0000 + Int64Min
  }

  /** The value of lastId after one increment. */
  function NextId(last: int): int
  {
    WrapInt64(last + 1)
  }

  /** The value of lastId after n calls, starting from its initial 1. */
  function IdAfterCalls(n: nat): int
  {
    if n == 0 then 1 else NextId(IdAfterCalls(n - 1))
  }

  /** Before the counter reaches the int64 maximum, the n-th call returns n + 1. */
  lemma {:induction false} IdAfterCallsValue(n: nat)
    requires n < Int64Max
    ensures IdAfterCalls(n) == n + 1
  {
    if n > 0 {
      IdAfterCallsValue(n - 1);
    }
  }

  /** Ids handed out before the wrap strictly increase, so no two are equal. */
  lemma {:induction false} IdsIncrease(i: nat, j: nat)
    requires i < j < Int64Max
    ensures IdAfterCalls(i) < IdAfterCalls(j)
  {
    IdAfterCallsValue(i);
    IdAfterCallsValue(j);
  }

  /** The package variable lastId, and how many ids it has handed out. */
  class IdSource {
    var lastId: int
    ghost var calls: nat

    ghost predicate Valid()
      reads this
    {
      lastId == IdAfterCalls(calls)
    }

    constructor ()
      ensures Valid() && lastId == 1 && calls == 0
    {
      lastId := 1;
      calls := 0;
    }

    /** GetGoroutineId: add one to lastId and return the new value. */
    method GetGoroutineId() returns (id: int)
      requires Valid()
      modifies this
      ensures Valid() && calls == old(calls) + 1
      ensures lastId == NextId(old(lastId)) && id == lastId
      ensures old(lastId) < Int64Max ==> id == old(lastId) + 1
    {
      lastId := WrapInt64(lastId + 1);
      calls := calls + 1;
      id := lastId;
    }
  }

  /** The first id a fresh counter hands out is 2. */
  method FirstId() returns (id: int)
    ensures id == 2
  {
    var source := new IdSource();
    id := source.GetGoroutineId();
  }
}

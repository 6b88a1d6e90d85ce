/**
 * The generator of numbers that come round again, and the ids that the gateway server draws from it for its clients.
 */
module Generator {

  const INT_MAX := 0x7FFF_FFFF

  /** The number that is drawn, and the one that will be looked at next. */
  function Draw(min: int, max: int, last: int): (r: (int, int))
    ensures min <= last <= max + 1 && min <= max ==> min <= r.0 <= max
  {
    var id := if last > max then min else last;
    (id, id + 1)
  }

  /** The number that the k-th draw from now on gives, within one cycle and one more. */
  function Upcoming(min: int, max: int, last: int, k: nat): int
    requires min <= max && k <= max - min + 1
  {
    var id := Draw(min, max, last).0 + k;
    if id > max then id - (max - min + 1) else id
  }

  /** One cycle brings every number exactly once. */
  lemma CycleCovers(min: int, max: int, last: int, id: int)
    requires min <= last <= max + 1 && min <= id <= max
    ensures exists k: nat :: k <= max - min && Upcoming(min, max, last, k) == id
    ensures forall j: nat, k: nat :: j < k <= max - min ==> Upcoming(min, max, last, j) != Upcoming(min, max, last, k)
  {
    var first := Draw(min, max, last).0;
    assert Upcoming(min, max, last, if first <= id then id - first else id - first + (max - min + 1)) == id;
  }

  class HandlerIdGenerator {
    const min: int
    const max: int
    var isClosed: bool
    var last: int

    ghost predicate Valid()
      reads this
    {
      min <= max < INT_MAX && min <= last <= max + 1
    }

    constructor (min: int, max: int)
      requires min <= max < INT_MAX
      ensures Valid() && this.min == min && this.max == max && last == min && !isClosed
    {
      this.min := min;
      this.max := max;
      isClosed := false;
      last := min;
    }

    method Next() returns (id: int)
      requires Valid()
      modifies this
      ensures Valid() && isClosed == old(isClosed)
      ensures isClosed ==> id == last == old(last)
      ensures !isClosed ==> (id, last) == Draw(min, max, old(last)) && min <= id <= max
    {
      if isClosed {
        return last;
      }
      if last > max {
        last := min;
      }
      id := last;
      last := last + 1;
    }

    method Close()
      requires Valid()
      modifies this
      ensures Valid() && isClosed && last == old(last)
    {
      isClosed := true;
    }
  }
}

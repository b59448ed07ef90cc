/**
An allocator of 32-bit ids.  It stores the first id never handed out and the ids given back; it means the set
of ids in use.
*/
module IdAllocators {
  import opened Basics

  datatype Error =
    | InvalidRange(base: nat, end: nat)
    | ResourceNotAvailable
    | Overflow
    | OutOfRange(id: nat)
    | NeverAllocated(id: nat)
    | AlreadyReleased(id: nat)

  const U32_MAX: nat := TWO32 - 1

  ghost predicate IsMin(s: set<nat>, m: nat) {
    m in s && forall x :: x in s ==> m <= x
  }

  method First(s: set<nat>) returns (m: nat)
    requires s != {}
    ensures IsMin(s, m)
  {
    m :| m in s;
    var rest := s - {m};
    while rest != {}
      invariant m in s && rest <= s && forall x :: x in s && x !in rest ==> m <= x
      decreases |rest|
    {
      var x :| x in rest;
      if x < m {
        m := x;
      }
      rest := rest - {x};
    }
  }

  class IdAllocator {
    const base: nat
    const end: nat
    var next: Option<nat>
    var freed: set<nat>

    /** Ids below this one have been handed out at some time. */
    ghost function Limit(): nat
      reads this
    {
      if next.Some? then next.value else TWO32
    }

    /** Freed ids lie in the range and have been handed out before. */
    ghost predicate Valid()
      reads this
    {
      && base <= end <= U32_MAX
      && base <= Limit() <= end + 1
      && (next.Some? ==> next.value <= U32_MAX)
      && forall id :: id in freed ==> base <= id < Limit()
    }

    /** The ids in use. */
    ghost function Allocated(): set<nat>
      reads this
    {
      set id | base <= id < Limit() && id !in freed
    }

    ghost predicate Full()
      reads this
    {
      forall id :: base <= id <= end ==> id in Allocated()
    }

    constructor (base_: nat, end_: nat)
      requires base_ <= end_ <= U32_MAX
      ensures Valid() && Allocated() == {} && base == base_ && end == end_ && Limit() == base
    {
      base, end, next, freed := base_, end_, Some(base_), {};
    }

    static method New(base: nat, end: nat) returns (r: Result<IdAllocator, Error>)
      requires base <= U32_MAX && end <= U32_MAX
      ensures r.Ok? <==> base <= end
      ensures r.Err? ==> r.error == InvalidRange(base, end)
      ensures r.Ok? ==> fresh(r.value) && r.value.Valid() && r.value.Allocated() == {}
                        && r.value.base == base && r.value.end == end
    {
      if end < base {
        return Err(InvalidRange(base, end));
      }
      var a := new IdAllocator(base, end);
      r := Ok(a);
    }

    /** Hands out the smallest id of the range not in use; fails exactly when all are in use. */
    method Allocate() returns (r: Result<nat, Error>)
      requires Valid()
      modifies this
      ensures Valid() && old(Limit()) <= Limit()
      ensures r.Err? <==> old(Full())
      ensures r.Err? ==> unchanged(this) && r.error == if end == U32_MAX then Overflow else ResourceNotAvailable
      ensures r.Ok? ==> base <= r.value <= end && r.value !in old(Allocated())
      ensures r.Ok? ==> forall id :: base <= id < r.value ==> id in old(Allocated())
      ensures r.Ok? ==> Allocated() == old(Allocated()) + {r.value}
    {
      if freed != {} {
        var value := First(freed);
        freed := freed - {value};
        return Ok(value);
      }
      if next.Some? {
        var id := next.value;
        if id > end {
          return Err(ResourceNotAvailable);
        }
        assert id !in Allocated();
        next := if id == U32_MAX then None else Some(id + 1);
        return Ok(id);
      }
      r := Err(Overflow);
    }

    method IsAllocated(id: nat) returns (r: bool)
      requires Valid()
      ensures r <==> id in Allocated()
    {
      if !(base <= id <= end) || id in freed {
        return false;
      }
      r := if next.Some? then id < next.value else true;
    }

    /** Gives an id back; succeeds exactly for the ids in use, and otherwise says what is wrong. */
    method Free(id: nat) returns (r: Result<nat, Error>)
      requires Valid()
      modifies this
      ensures Valid() && Limit() == old(Limit())
      ensures r.Ok? <==> id in old(Allocated())
      ensures r.Ok? ==> r.value == id && Allocated() == old(Allocated()) - {id}
      ensures r.Err? ==> unchanged(this)
      ensures r.Err? ==> r.error ==
                         if !(base <= id <= end) then OutOfRange(id)
                         else if Limit() <= id then NeverAllocated(id)
                         else AlreadyReleased(id)
    {
      if !(base <= id <= end) {
        return Err(OutOfRange(id));
      }
      if next.Some? && next.value <= id {
        return Err(NeverAllocated(id));
      }
      if id in freed {
        return Err(AlreadyReleased(id));
      }
      freed := freed + {id};
      r := Ok(id);
    }
  }
}

/**
Cutting a range of guest physical addresses into slices of regions, and checking ranges.
*/
module GuestSlices {
  import opened Basics
  import opened GuestRegions

  datatype Error = InvalidGuestAddress(addr: nat) | GuestAddressOverflow | InvalidBackendAddress

  /** `len` bytes at `offset` of the region with the given index. */
  datatype Slice = Slice(region: nat, offset: nat, len: nat)

  type Item = Result<Slice, Error>

  // ----- Addresses -----

  function Wrap(a: nat, k: nat): nat {
    (a + k) % TWO64
  }

  /** `count` consecutive addresses from `a` on, wrapping at the end of the address space. */
  function WrapRange(a: nat, count: nat): (r: seq<nat>)
    ensures |r| == count
    ensures forall k :: 0 <= k < count ==> r[k] == Wrap(a, k)
  {
    seq(count, k requires 0 <= k => Wrap(a, k))
  }

  /** The length of the longest prefix of addresses that are all mapped. */
  ghost function MappedLen(rs: seq<Region>, addrs: seq<nat>): nat {
    if addrs == [] || !Mapped(rs, addrs[0]) then 0 else 1 + MappedLen(rs, addrs[1..])
  }

  lemma {:induction false} MappedLenExact(rs: seq<Region>, addrs: seq<nat>)
    ensures MappedLen(rs, addrs) <= |addrs|
    ensures forall k :: 0 <= k < MappedLen(rs, addrs) ==> Mapped(rs, addrs[k])
    ensures MappedLen(rs, addrs) < |addrs| ==> !Mapped(rs, addrs[MappedLen(rs, addrs)])
  {
    if addrs != [] && Mapped(rs, addrs[0]) {
      MappedLenExact(rs, addrs[1..]);
      forall k | 0 <= k < MappedLen(rs, addrs) ensures Mapped(rs, addrs[k]) {
        if k > 0 { assert addrs[k] == addrs[1..][k - 1]; }
      }
    }
  }

  lemma {:induction false} MappedLenConcat(rs: seq<Region>, a: seq<nat>, b: seq<nat>)
    ensures MappedLen(rs, a + b) ==
            if MappedLen(rs, a) == |a| then |a| + MappedLen(rs, b) else MappedLen(rs, a)
  {
    MappedLenExact(rs, a);
    if a == [] {
      assert a + b == b;
    } else if Mapped(rs, a[0]) {
      MappedLenConcat(rs, a[1..], b);
      MappedLenExact(rs, a[1..]);
      assert (a + b)[1..] == a[1..] + b;
    }
  }

  lemma {:induction false} AllMapped(rs: seq<Region>, addrs: seq<nat>)
    ensures MappedLen(rs, addrs) == |addrs| <==> forall k :: 0 <= k < |addrs| ==> Mapped(rs, addrs[k])
  {
    MappedLenExact(rs, addrs);
  }

  // ----- Single slices -----

  function ToRegionAddr(rs: seq<Region>, a: nat): (r: Option<(nat, nat)>)
    requires Ordered(rs)
    ensures r.Some? <==> Mapped(rs, a)
    ensures r.Some? ==> r.value.0 < |rs| && r.value.1 < rs[r.value.0].len && rs[r.value.0].start + r.value.1 == a
  {
    FindRegionExact(rs, a);
    match FindRegion(rs, a)
    case None => None
    case Some(i) => Some((i, a - rs[i].start))
  }

  /** A region's slice exists exactly when the range fits into it. */
  function RegionSlice(rs: seq<Region>, i: nat, offset: nat, count: nat): Item
    requires i < |rs|
  {
    if offset + count <= rs[i].len then Ok(Slice(i, offset, count)) else Err(InvalidBackendAddress)
  }

  function GetSlice(rs: seq<Region>, a: nat, count: nat): Item
    requires Ordered(rs)
  {
    match ToRegionAddr(rs, a)
    case None => Err(InvalidGuestAddress(a))
    case Some((i, offset)) => RegionSlice(rs, i, offset, count)
  }

  predicate InBounds(rs: seq<Region>, s: Slice) {
    s.region < |rs| && s.offset + s.len <= rs[s.region].len
  }

  function SliceAddrs(rs: seq<Region>, s: Slice): (r: seq<nat>)
    requires InBounds(rs, s)
    ensures |r| == s.len
  {
    seq(s.len, k requires 0 <= k => rs[s.region].start + s.offset + k)
  }

  /** Addresses that follow `a` within one region do not wrap, and are all mapped. */
  lemma WithinRegion(rs: seq<Region>, s: Slice, a: nat)
    requires Ordered(rs) && InBounds(rs, s) && rs[s.region].start + s.offset == a
    ensures SliceAddrs(rs, s) == WrapRange(a, s.len)
    ensures MappedLen(rs, WrapRange(a, s.len)) == s.len
  {
    var addrs := WrapRange(a, s.len);
    forall k | 0 <= k < s.len ensures Mapped(rs, addrs[k]) && addrs[k] == a + k {
      assert Contains(rs[s.region], a + k);
    }
    AllMapped(rs, addrs);
  }

  /**
  A single slice is to be had exactly when the whole range lies in one region, and then it is that range; otherwise the
  error says whether the first address or the region was the problem.
  */
  lemma GetSliceExact(rs: seq<Region>, a: nat, count: nat)
    requires Ordered(rs)
    ensures var r := GetSlice(rs, a, count);
            && (r.Ok? <==> exists i :: 0 <= i < |rs| && Contains(rs[i], a) && a + count <= rs[i].start + rs[i].len)
            && (r.Ok? ==> InBounds(rs, r.value) && SliceAddrs(rs, r.value) == WrapRange(a, count))
            && (r == Err(InvalidGuestAddress(a)) <==> !Mapped(rs, a))
            && (r.Err? && Mapped(rs, a) ==> r == Err(InvalidBackendAddress))
  {
    hide Ordered;
    var r := GetSlice(rs, a, count);
    if Mapped(rs, a) {
      var (owner, offset) := ToRegionAddr(rs, a).value;
      assert Contains(rs[owner], a);
      forall i | 0 <= i < |rs| && Contains(rs[i], a) ensures i == owner { UniqueOwner(rs, i, owner, a); }
    }
    if r.Ok? { WithinRegion(rs, r.value, a); }
  }

  // ----- The slice iterator -----

  datatype Cursor = Cursor(addr: nat, count: nat)

  predicate ValidCursor(c: Cursor) {
    c.addr < TWO64
  }

  /** do_next: the next slice, up to the end of its region. */
  function Advance(rs: seq<Region>, c: Cursor): (Option<Item>, Cursor)
    requires Ordered(rs)
  {
    if c.count == 0 then (None, c)
    else
      match ToRegionAddr(rs, c.addr)
      case None => (Some(Err(InvalidGuestAddress(c.addr))), c)
      case Some((i, offset)) =>
        var cap := rs[i].len - offset;
        var len := Min(cap, c.count);
        var next := (c.addr + len) % TWO64;
        var overflow := c.addr + len >= TWO64;
        if next == 0 || !overflow then
          (Some(RegionSlice(rs, i, offset, len)), Cursor(next, c.count - len))
        else (Some(Err(GuestAddressOverflow)), Cursor(c.addr, c.count - len))
  }

  /** next: iteration stays stopped after an error or the end. */
  function Step(rs: seq<Region>, c: Cursor): (Option<Item>, Cursor)
    requires Ordered(rs)
  {
    var (item, c') := Advance(rs, c);
    if item.Some? && item.value.Ok? then (item, c') else (item, c'.(count := 0))
  }

  /** What one call of `next` does, in terms of addresses. */
  lemma StepExact(rs: seq<Region>, c: Cursor)
    requires Ordered(rs) && ValidCursor(c)
    ensures var (item, c') := Step(rs, c);
            && ValidCursor(c') && c'.count <= c.count
            && (item.None? <==> c.count == 0)
            && (c.count > 0 ==> c'.count < c.count)
            && (item.Some? && item.value.Err? ==>
                  !Mapped(rs, c.addr) && item.value == Err(InvalidGuestAddress(c.addr)) && c'.count == 0)
            && (item.Some? && item.value.Ok? ==>
                  var s := item.value.value;
                  && InBounds(rs, s) && 0 < s.len <= c.count && rs[s.region].start + s.offset == c.addr
                  && s.len == Min(rs[s.region].len - s.offset, c.count)
                  && c' == Cursor((c.addr + s.len) % TWO64, c.count - s.len))
  {
  }

  /** Everything the iterator yields. */
  function Items(rs: seq<Region>, c: Cursor): seq<Item>
    requires Ordered(rs) && ValidCursor(c)
    decreases c.count
  {
    StepExact(rs, c);
    var (item, c') := Step(rs, c);
    if item.None? then [] else [item.value] + Items(rs, c')
  }

  /** The addresses of the slices, one per byte. */
  function Flat(rs: seq<Region>, items: seq<Item>): seq<nat>
    requires GoodItems(rs, items)
  {
    if items == [] then []
    else (if items[0].Ok? then SliceAddrs(rs, items[0].value) else []) + Flat(rs, items[1..])
  }

  predicate GoodItems(rs: seq<Region>, items: seq<Item>) {
    forall i :: 0 <= i < |items| && items[i].Ok? ==> InBounds(rs, items[i].value) && 0 < items[i].value.len
  }

  /**
  The run over `addrs`: in-bounds, non-empty slices that cover exactly the longest mapped prefix, in order,
  followed, if something is unmapped, by one error for the first such address.
  */
  ghost predicate ExactRun(rs: seq<Region>, items: seq<Item>, addrs: seq<nat>) {
    var n := MappedLen(rs, addrs);
    && GoodItems(rs, items)
    && n <= |addrs| && Flat(rs, items) == addrs[..n]
    && (forall i :: 0 <= i < |items| - 1 ==> items[i].Ok?)
    && if n == |addrs| then (forall i :: 0 <= i < |items| ==> items[i].Ok?)
       else items != [] && items[|items| - 1] == Err(InvalidGuestAddress(addrs[n]))
  }

  lemma ExactCons(rs: seq<Region>, s: Slice, items: seq<Item>, addrs: seq<nat>)
    requires InBounds(rs, s) && 0 < s.len && ExactRun(rs, items, addrs)
    requires MappedLen(rs, SliceAddrs(rs, s)) == s.len
    ensures ExactRun(rs, [Ok(s)] + items, SliceAddrs(rs, s) + addrs)
  {
    var all := SliceAddrs(rs, s) + addrs;
    MappedLenConcat(rs, SliceAddrs(rs, s), addrs);
    assert ([Ok(s)] + items)[1..] == items;
    var n := MappedLen(rs, addrs);
    assert all[..s.len + n] == SliceAddrs(rs, s) + addrs[..n];
  }

  lemma WrapRangeSplit(a: nat, len: nat, count: nat)
    requires len <= count
    ensures WrapRange(a, count) == WrapRange(a, len) + WrapRange(Wrap(a, len), count - len)
  {
    forall k | len <= k < count ensures Wrap(a, k) == Wrap(Wrap(a, len), k - len) {
      WrapAdd(a + len, k - len);
    }
  }

  lemma WrapAdd(a: nat, k: nat)
    ensures (a + k) % TWO64 == (a % TWO64 + k) % TWO64
  {
    assert a + k == TWO64 * (a / TWO64) + (a % TWO64 + k);
  }

  lemma ExactError(rs: seq<Region>, addrs: seq<nat>)
    requires addrs != [] && !Mapped(rs, addrs[0])
    ensures ExactRun(rs, [Err(InvalidGuestAddress(addrs[0]))], addrs)
  {
  }

  /** What a cursor yields is the exact run over the addresses it stands for. */
  ghost predicate Yields(rs: seq<Region>, c: Cursor)
    requires Ordered(rs) && ValidCursor(c)
  {
    ExactRun(rs, Items(rs, c), WrapRange(c.addr, c.count))
  }

  /**
  `get_slices` yields consecutive slices whose lengths sum to `count`, unless some address is unmapped: then
  the first such address is the single, final error.  `GuestAddressOverflow` is never returned.
  */
  lemma {:induction false} GetSlicesExact(rs: seq<Region>, c: Cursor)
    requires Ordered(rs) && ValidCursor(c)
    ensures Yields(rs, c)
    decreases c.count
  {
    if c.count == 0 {
      assert Items(rs, c) == [];
    } else if Mapped(rs, c.addr) {
      var s, c' := FirstSlice(rs, c);
      GetSlicesExact(rs, c');
      SliceThenRest(rs, c, s, c');
    } else {
      StopsAtHole(rs, c);
    }
  }

  lemma FirstSlice(rs: seq<Region>, c: Cursor) returns (s: Slice, c': Cursor)
    requires Ordered(rs) && ValidCursor(c) && c.count > 0 && Mapped(rs, c.addr)
    ensures InBounds(rs, s) && 0 < s.len <= c.count && rs[s.region].start + s.offset == c.addr
    ensures ValidCursor(c') && c' == Cursor(Wrap(c.addr, s.len), c.count - s.len)
    ensures Items(rs, c) == [Ok(s)] + Items(rs, c')
  {
    StepExact(rs, c);
    s, c' := Step(rs, c).0.value.value, Step(rs, c).1;
  }

  lemma SliceThenRest(rs: seq<Region>, c: Cursor, s: Slice, c': Cursor)
    requires Ordered(rs) && InBounds(rs, s) && 0 < s.len <= c.count && rs[s.region].start + s.offset == c.addr
    requires ValidCursor(c) && ValidCursor(c') && c' == Cursor(Wrap(c.addr, s.len), c.count - s.len)
    requires Items(rs, c) == [Ok(s)] + Items(rs, c') && Yields(rs, c')
    ensures Yields(rs, c)
  {
    WithinRegion(rs, s, c.addr);
    WrapRangeSplit(c.addr, s.len, c.count);
    ExactCons(rs, s, Items(rs, c'), WrapRange(c'.addr, c'.count));
  }

  lemma StopsAtHole(rs: seq<Region>, c: Cursor)
    requires Ordered(rs) && ValidCursor(c) && c.count > 0 && !Mapped(rs, c.addr)
    ensures Yields(rs, c)
  {
    StepExact(rs, c);
    assert Items(rs, Step(rs, c).1) == [];
    assert WrapRange(c.addr, c.count)[0] == c.addr;
    ExactError(rs, WrapRange(c.addr, c.count));
  }

  predicate AllOk(items: seq<Item>) {
    forall i :: 0 <= i < |items| ==> items[i].Ok?
  }

  lemma ExactRunOk(rs: seq<Region>, items: seq<Item>, addrs: seq<nat>)
    requires ExactRun(rs, items, addrs)
    ensures AllOk(items) <==> MappedLen(rs, addrs) == |addrs|
  {
    if MappedLen(rs, addrs) != |addrs| { assert items[|items| - 1].Err?; }
  }

  // ----- Checking ranges -----

  function CheckRange(rs: seq<Region>, base: nat, len: nat): bool
    requires Ordered(rs) && base < TWO64
  {
    len == 0 || GetSlice(rs, base, len).Ok? || AllOk(Items(rs, Cursor(base, len)))
  }

  /** A range is valid exactly when each of its addresses is mapped; the shortcut changes nothing. */
  lemma CheckRangeExact(rs: seq<Region>, base: nat, len: nat)
    requires Ordered(rs) && base < TWO64
    ensures CheckRange(rs, base, len) <==> MappedLen(rs, WrapRange(base, len)) == len
    ensures CheckRange(rs, base, len) <==> forall k :: 0 <= k < len ==> Mapped(rs, WrapRange(base, len)[k])
  {
    var addrs := WrapRange(base, len);
    GetSlicesExact(rs, Cursor(base, len));
    ExactRunOk(rs, Items(rs, Cursor(base, len)), addrs);
    AllMapped(rs, addrs);
    if GetSlice(rs, base, len).Ok? {
      WithinRegion(rs, GetSlice(rs, base, len).value, base);
    }
  }

  // ----- The iterator object -----

  class SliceIterator {
    const regions: seq<Region>
    var addr: nat
    var count: nat

    ghost predicate Valid()
      reads this
    {
      Ordered(regions) && addr < TWO64
    }

    constructor (rs: seq<Region>, a: nat, n: nat)
      requires Ordered(rs) && a < TWO64
      ensures Valid() && regions == rs && addr == a && count == n
    {
      regions, addr, count := rs, a, n;
    }

    method DoNext() returns (r: Option<Item>)
      requires Valid()
      modifies this
      ensures Valid()
      ensures (r, Cursor(addr, count)) == Advance(regions, Cursor(old(addr), old(count)))
    {
      if count == 0 {
        return None;
      }
      var found := ToRegionAddr(regions, addr);
      if found.None? {
        return Some(Err(InvalidGuestAddress(addr)));
      }
      var (i, offset) := found.value;
      var cap := regions[i].len - offset;
      var len := Min(cap, count);
      count := count - len;
      var next, overflow := (addr + len) % TWO64, addr + len >= TWO64;
      if next != 0 && overflow {
        return Some(Err(GuestAddressOverflow));
      }
      addr := next;
      r := Some(RegionSlice(regions, i, offset, len));
    }

    /** Yields the items of the run one by one, then `None` for ever. */
    method Next() returns (r: Option<Item>)
      requires Valid()
      modifies this
      ensures Valid()
      ensures (r, Cursor(addr, count)) == Step(regions, Cursor(old(addr), old(count)))
      ensures Items(regions, Cursor(old(addr), old(count))) ==
              if r.Some? then [r.value] + Items(regions, Cursor(addr, count)) else []
      ensures r.None? || r.value.Err? ==> count == 0
    {
      StepExact(regions, Cursor(addr, count));
      r := DoNext();
      if r.None? || r.value.Err? {
        count := 0;
      }
    }
  }
}

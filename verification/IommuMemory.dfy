/**
Memory behind an IOMMU: a range of I/O virtual addresses is translated chunk by chunk, and each chunk is
cut into slices of physical regions.
*/
module IommuMemories {
  import opened Basics
  import opened RangeMaps
  import T = Iotlbs
  import opened GuestRegions
  import opened GuestSlices

  /** A slice, and its offset in the dirty bitmap of the I/O virtual address space. */
  datatype VSlice = VSlice(slice: Slice, dirtyAt: nat)

  type VItem = Result<VSlice, Error>

  /** Slices laid out from `iova` on. */
  function Annotate(items: seq<Item>, iova: nat): seq<VItem> {
    if items == [] then []
    else
      match items[0]
      case Ok(s) => [Ok(VSlice(s, iova))] + Annotate(items[1..], iova + s.len)
      case Err(e) => [Err(e)] + Annotate(items[1..], iova)
  }

  function Total(items: seq<Item>): nat {
    if items == [] then 0
    else (if items[0].Ok? then items[0].value.len else 0) + Total(items[1..])
  }

  /** Each slice is marked with the I/O virtual address of its first byte. */
  lemma {:induction false} AnnotateMeaning(items: seq<Item>, iova: nat, i: nat)
    requires i < |items|
    ensures |Annotate(items, iova)| == |items|
    ensures items[i].Ok? ==> Annotate(items, iova)[i] == Ok(VSlice(items[i].value, iova + Total(items[..i])))
    ensures items[i].Err? ==> Annotate(items, iova)[i] == Err(items[i].error)
  {
    var next := iova + (if items[0].Ok? then items[0].value.len else 0);
    if i > 0 {
      AnnotateMeaning(items[1..], next, i - 1);
      assert items[..i][1..] == items[1..][..i - 1];
    } else if |items| > 1 {
      AnnotateMeaning(items[1..], next, 0);
    }
  }

  lemma {:induction false} AnnotateConcat(a: seq<Item>, b: seq<Item>, iova: nat)
    ensures Annotate(a + b, iova) == Annotate(a, iova) + Annotate(b, iova + Total(a))
  {
    if a == [] {
      assert a + b == b;
    } else {
      assert (a + b)[1..] == a[1..] + b;
      AnnotateConcat(a[1..], b, if a[0].Ok? then iova + a[0].value.len else iova);
    }
  }

  lemma {:induction false} TotalIsFlat(rs: seq<Region>, items: seq<Item>)
    requires GoodItems(rs, items)
    ensures Total(items) == |Flat(rs, items)|
  {
    if items != [] { TotalIsFlat(rs, items[1..]); }
  }

  // ----- The nested iterator -----

  /**
  `[start, end)` is what is left of the translation, `current` the iterator over the chunk in progress.
  */
  datatype Progress = Progress(iova: nat, start: nat, end: nat, current: Option<Cursor>)

  /** The bytes left in the current chunk lie between the next byte's IOVA and the rest of the translation. */
  ghost predicate Consistent(t: T.Tlb, rs: seq<Region>, p: Progress) {
    && Sorted(t) && Ordered(rs)
    && p.start <= p.end < TWO64 && T.Mapped(t, p.start, p.end)
    && (p.current.Some? ==> ValidCursor(p.current.value))
    && p.iova + (if p.current.Some? then p.current.value.count else 0) == p.start
  }

  /** The iterator over the next chunk of the translation. */
  function NextCursor(t: T.Tlb, start: nat, end: nat): (c: Cursor)
    requires start < end && At(t, start).Some?
    ensures ValidCursor(c) && 0 < c.count <= end - start
  {
    var c := T.NextChunk(t, start, end);
    Cursor(c.base, c.length)
  }

  /** Everything the nested iterator yields. */
  function VItems(t: T.Tlb, rs: seq<Region>, p: Progress): seq<VItem>
    requires Consistent(t, rs, p)
    decreases p.end - p.start, if p.current.Some? then p.current.value.count else 0
  {
    if p.current.Some? && p.current.value.count > 0 then
      StepExact(rs, p.current.value);
      var (item, c) := Step(rs, p.current.value);
      match item.value
      case Ok(s) =>
        [Ok(VSlice(s, p.iova))] + VItems(t, rs, p.(iova := p.iova + s.len, current := Some(c)))
      case Err(e) => [Err(e)]
    else if p.start == p.end then []
    else
      var c := NextCursor(t, p.start, p.end);
      VItems(t, rs, p.(start := p.start + c.count, current := Some(c)))
  }

  /** The physical items of a translation: chunk after chunk, until an error. */
  function PItems(t: T.Tlb, rs: seq<Region>, start: nat, end: nat): seq<Item>
    requires Ordered(rs) && T.Mapped(t, start, end)
    decreases end - start
  {
    if end <= start then []
    else
      var c := NextCursor(t, start, end);
      var items := Items(rs, c);
      if AllOk(items) then items + PItems(t, rs, start + c.count, end) else items
  }

  /** The rest of a chunk comes first; the rest of the translation follows unless the chunk ends in an error. */
  lemma {:induction false} ChunkFirst(t: T.Tlb, rs: seq<Region>, p: Progress)
    requires Consistent(t, rs, p) && p.current.Some?
    ensures VItems(t, rs, p) ==
            Annotate(Items(rs, p.current.value), p.iova)
            + (if AllOk(Items(rs, p.current.value)) then VItems(t, rs, Progress(p.start, p.start, p.end, None)) else [])
    decreases p.current.value.count
  {
    hide Step, NextCursor, T.Mapped, VItems, Items, AllOk, Annotate, Ordered, Sorted;
    var cur := p.current.value;
    StepExact(rs, cur);
    if cur.count == 0 {
      ChunkDone(t, rs, p);
    } else {
      var (item, c) := Step(rs, cur);
      ChunkNext(t, rs, p);
      if item.value.Ok? {
        ChunkFirst(t, rs, p.(iova := p.iova + item.value.value.len, current := Some(c)));
        Consed(item.value, Items(rs, c), p.iova);
      } else {
        OneError(item.value.error, p.iova);
      }
    }
  }

  lemma ChunkDone(t: T.Tlb, rs: seq<Region>, p: Progress)
    requires Consistent(t, rs, p) && p.current.Some? && p.current.value.count == 0
    ensures VItems(t, rs, p) == VItems(t, rs, Progress(p.start, p.start, p.end, None))
    ensures Items(rs, p.current.value) == [] && AllOk([]) && Annotate([], p.iova) == []
  {
    hide NextCursor, Ordered, Sorted;
    StepExact(rs, p.current.value);
  }

  lemma ChunkNext(t: T.Tlb, rs: seq<Region>, p: Progress)
    requires Consistent(t, rs, p) && p.current.Some? && p.current.value.count > 0
    ensures var (item, c) := Step(rs, p.current.value);
            && item.Some? && ValidCursor(c)
            && (item.value.Ok? ==>
                  && var q := p.(iova := p.iova + item.value.value.len, current := Some(c));
                  && Consistent(t, rs, q)
                  && VItems(t, rs, p) == [Ok(VSlice(item.value.value, p.iova))] + VItems(t, rs, q)
                  && Items(rs, p.current.value) == [item.value] + Items(rs, c))
            && (item.value.Err? ==>
                  VItems(t, rs, p) == [Err(item.value.error)] && Items(rs, p.current.value) == [item.value])
  {
    hide Step, NextCursor, Ordered, Sorted, T.Mapped;
    StepExact(rs, p.current.value);
    var (_, c) := Step(rs, p.current.value);
    StepExact(rs, c);
  }

  lemma Consed(item: Item, rest: seq<Item>, iova: nat)
    requires item.Ok?
    ensures AllOk([item] + rest) <==> AllOk(rest)
    ensures Annotate([item] + rest, iova) == [Ok(VSlice(item.value, iova))] + Annotate(rest, iova + item.value.len)
  {
    assert ([item] + rest)[1..] == rest;
    forall i | 0 <= i < |rest| ensures ([item] + rest)[i + 1] == rest[i] { }
  }

  lemma OneError(e: Error, iova: nat)
    ensures !AllOk([Err(e)]) && Annotate([Err(e)], iova) == [Err(e)]
  {
    assert [Result<Slice, Error>.Err(e)][0].Err?;
  }

  lemma PStep(t: T.Tlb, rs: seq<Region>, start: nat, end: nat)
    requires Ordered(rs) && T.Mapped(t, start, end) && start < end
    ensures var c := NextCursor(t, start, end);
            PItems(t, rs, start, end) ==
            if AllOk(Items(rs, c)) then Items(rs, c) + PItems(t, rs, start + c.count, end) else Items(rs, c)
  {
    hide NextCursor, Items, AllOk, Ordered;
  }

  lemma VStep(t: T.Tlb, rs: seq<Region>, start: nat, end: nat)
    requires Consistent(t, rs, Progress(start, start, end, None)) && start < end
    ensures var c := NextCursor(t, start, end);
            && Consistent(t, rs, Progress(start + c.count, start + c.count, end, None))
            && VItems(t, rs, Progress(start, start, end, None)) ==
               Annotate(Items(rs, c), start)
               + (if AllOk(Items(rs, c))
                  then VItems(t, rs, Progress(start + c.count, start + c.count, end, None)) else [])
  {
    hide VItems, NextCursor, Items, AllOk, Annotate, Ordered, Sorted;
    var c := NextCursor(t, start, end);
    VLoads(t, rs, start, end);
    ChunkFirst(t, rs, Progress(start, start + c.count, end, Some(c)));
  }

  lemma VLoads(t: T.Tlb, rs: seq<Region>, start: nat, end: nat)
    requires Consistent(t, rs, Progress(start, start, end, None)) && start < end
    ensures var p := Progress(start, start + NextCursor(t, start, end).count, end, Some(NextCursor(t, start, end)));
            Consistent(t, rs, p) && VItems(t, rs, Progress(start, start, end, None)) == VItems(t, rs, p)
  {
    hide NextCursor, Ordered, Sorted, Step;
  }

  lemma {:induction false} VItemsArePItems(t: T.Tlb, rs: seq<Region>, start: nat, end: nat)
    requires Consistent(t, rs, Progress(start, start, end, None))
    ensures VItems(t, rs, Progress(start, start, end, None)) == Annotate(PItems(t, rs, start, end), start)
    decreases end - start
  {
    hide VItems, PItems, NextCursor, Items, AllOk, Annotate, Total, Ordered, Sorted;
    if start == end {
      NothingLeft(t, rs, start);
    } else {
      var c := NextCursor(t, start, end);
      VStep(t, rs, start, end);
      PStep(t, rs, start, end);
      if AllOk(Items(rs, c)) {
        VItemsArePItems(t, rs, start + c.count, end);
        AnnotateConcat(Items(rs, c), PItems(t, rs, start + c.count, end), start);
        ChunkTotal(rs, c);
      }
    }
  }

  lemma NothingLeft(t: T.Tlb, rs: seq<Region>, end: nat)
    requires Consistent(t, rs, Progress(end, end, end, None))
    ensures VItems(t, rs, Progress(end, end, end, None)) == Annotate(PItems(t, rs, end, end), end)
    ensures ExactRun(rs, PItems(t, rs, end, end), T.Phys(t, end, end))
  {
  }

  lemma ChunkTotal(rs: seq<Region>, c: Cursor)
    requires Ordered(rs) && ValidCursor(c) && AllOk(Items(rs, c))
    ensures Total(Items(rs, c)) == c.count
  {
    GetSlicesExact(rs, c);
    ExactRunOk(rs, Items(rs, c), WrapRange(c.addr, c.count));
    TotalIsFlat(rs, Items(rs, c));
  }

  lemma {:induction false} FlatConcat(rs: seq<Region>, a: seq<Item>, b: seq<Item>)
    requires GoodItems(rs, a) && GoodItems(rs, b)
    ensures GoodItems(rs, a + b) && Flat(rs, a + b) == Flat(rs, a) + Flat(rs, b)
  {
    hide Flat, GoodItems;
    FlatStep(rs, a);
    GoodConcat(rs, a, b);
    if a == [] {
      assert a + b == b;
    } else {
      FlatConcat(rs, a[1..], b);
      FlatStep(rs, a + b);
      assert (a + b)[1..] == a[1..] + b;
    }
  }

  lemma FlatStep(rs: seq<Region>, items: seq<Item>)
    requires GoodItems(rs, items)
    ensures items == [] ==> Flat(rs, items) == []
    ensures items != [] ==>
              && GoodItems(rs, items[1..])
              && Flat(rs, items) == FirstAddrs(rs, items[0]) + Flat(rs, items[1..])
  {
    hide SliceAddrs;
  }

  function FirstAddrs(rs: seq<Region>, item: Item): seq<nat>
    requires item.Ok? ==> InBounds(rs, item.value)
  {
    if item.Ok? then SliceAddrs(rs, item.value) else []
  }

  lemma GoodConcat(rs: seq<Region>, a: seq<Item>, b: seq<Item>)
    requires GoodItems(rs, a) && GoodItems(rs, b)
    ensures GoodItems(rs, a + b)
  {
    hide InBounds;
  }

  lemma ExactAppend(rs: seq<Region>, a: seq<Item>, x: seq<nat>, b: seq<Item>, y: seq<nat>)
    requires ExactRun(rs, a, x) && AllOk(a) && ExactRun(rs, b, y)
    ensures ExactRun(rs, a + b, x + y)
  {
    hide Flat, MappedLen, GoodItems;
    ExactRunOk(rs, a, x);
    MappedLenConcat(rs, x, y);
    FlatConcat(rs, a, b);
    assert (x + y)[..|x| + MappedLen(rs, y)] == x + y[..MappedLen(rs, y)];
    assert x[..|x|] == x;
  }

  lemma ExactStop(rs: seq<Region>, a: seq<Item>, x: seq<nat>, y: seq<nat>)
    requires ExactRun(rs, a, x) && !AllOk(a)
    ensures ExactRun(rs, a, x + y)
  {
    ExactRunOk(rs, a, x);
    MappedLenConcat(rs, x, y);
    assert (x + y)[..MappedLen(rs, x)] == x[..MappedLen(rs, x)];
  }

  /** The run of a translation is the exact run over its translated addresses. */
  ghost predicate Translates(t: T.Tlb, rs: seq<Region>, start: nat, end: nat)
    requires Ordered(rs) && T.Mapped(t, start, end)
  {
    ExactRun(rs, PItems(t, rs, start, end), T.Phys(t, start, end))
  }

  lemma CursorAddrs(t: T.Tlb, start: nat, end: nat)
    requires Sorted(t) && start < end && T.Mapped(t, start, end)
    ensures var c := NextCursor(t, start, end);
            T.Phys(t, start, end) == WrapRange(c.addr, c.count) + T.Phys(t, start + c.count, end)
  {
    hide T.NextChunk, T.Phys;
    var c := NextCursor(t, start, end);
    T.FlatStep(t, start, end);
    assert T.ChunkAddrs(T.NextChunk(t, start, end)) == WrapRange(c.addr, c.count);
  }

  lemma {:induction false} PItemsExact(t: T.Tlb, rs: seq<Region>, start: nat, end: nat)
    requires Sorted(t) && Ordered(rs) && start <= end < TWO64 && T.Mapped(t, start, end)
    ensures Translates(t, rs, start, end)
    decreases end - start
  {
    hide PItems, NextCursor, Items, AllOk, ExactRun, T.Phys, Ordered, Sorted;
    if start == end {
      NothingLeft(t, rs, start);
    } else {
      var c := NextCursor(t, start, end);
      var next := start + c.count;
      PStep(t, rs, start, end);
      GetSlicesExact(rs, c);
      PItemsExact(t, rs, next, end);
      CursorAddrs(t, start, end);
      if AllOk(Items(rs, c)) {
        ExactAppend(rs, Items(rs, c), WrapRange(c.addr, c.count), PItems(t, rs, next, end), T.Phys(t, next, end));
      } else {
        ExactStop(rs, Items(rs, c), WrapRange(c.addr, c.count), T.Phys(t, next, end));
      }
    }
  }

  // ----- IommuMemory -----

  datatype AccessError = IommuError(fails: T.Fails)

  /** get_slices with the IOMMU enabled. */
  function GetVSlices(t: T.Tlb, rs: seq<Region>, iova: nat, length: nat, access: T.Permissions)
    : Result<seq<VItem>, AccessError>
    requires Canonical(t) && Ordered(rs) && T.ValidRange(iova, length)
  {
    match T.Lookup(t, iova, length, access)
    case Failed(fails) => Err(IommuError(fails))
    case Found =>
      FoundIsMapped(t, iova, length, access);
      Ok(VItems(t, rs, Progress(iova, iova, iova + length, None)))
  }

  lemma FoundIsMapped(t: T.Tlb, iova: nat, length: nat, access: T.Permissions)
    requires Canonical(t) && T.ValidRange(iova, length) && T.Lookup(t, iova, length, access).Found?
    ensures Sorted(t) && T.Mapped(t, iova, iova + length)
  {
    T.LookupExact(t, iova, length, access);
    forall a | iova <= a < iova + length ensures At(t, a).Some? { assert T.Accessible(t, a, access); }
  }

  /**
  The slices concatenate to exactly the physical bytes the range translates to, in order, up to the first
  physically unmapped byte, which is the single, final error; each is marked with its own IOVA.
  */
  lemma GetVSlicesExact(t: T.Tlb, rs: seq<Region>, iova: nat, length: nat, access: T.Permissions)
    requires Canonical(t) && Ordered(rs) && T.ValidRange(iova, length)
    ensures GetVSlices(t, rs, iova, length, access).Ok? <==> T.AllAccessible(t, iova, iova + length, access)
    ensures GetVSlices(t, rs, iova, length, access).Ok? ==>
              && T.Mapped(t, iova, iova + length)
              && exists items :: ExactRun(rs, items, T.Phys(t, iova, iova + length)) &&
                                 GetVSlices(t, rs, iova, length, access).value == Annotate(items, iova)
    ensures GetVSlices(t, rs, iova, length, access).Err? ==>
              T.ExactFails(t, iova, iova + length, access, GetVSlices(t, rs, iova, length, access).error.fails)
  {
    hide T.ExactFails, T.Lookup, T.AllAccessible, T.Phys, T.Mapped;
    hide VItems, PItems, Annotate, ExactRun, Canonical, Sorted, Ordered;
    T.LookupExact(t, iova, length, access);
    if T.Lookup(t, iova, length, access).Found? {
      FoundIsMapped(t, iova, length, access);
      PItemsExact(t, rs, iova, iova + length);
      VItemsArePItems(t, rs, iova, iova + length);
    }
  }

  predicate ChunksChecked(rs: seq<Region>, cs: seq<T.Chunk>)
    requires Ordered(rs) && forall i :: 0 <= i < |cs| ==> cs[i].base < TWO64
  {
    cs == [] || (CheckRange(rs, cs[0].base, cs[0].length) && ChunksChecked(rs, cs[1..]))
  }

  lemma {:induction false} ChunkBases(t: T.Tlb, start: nat, end: nat)
    requires T.Mapped(t, start, end)
    ensures forall i :: 0 <= i < |T.Chunks(t, start, end)| ==> T.Chunks(t, start, end)[i].base < TWO64
    decreases end - start
  {
    if start < end { ChunkBases(t, start + T.NextChunk(t, start, end).length, end); }
  }

  /** check_range with the IOMMU enabled. */
  predicate CheckVRange(t: T.Tlb, rs: seq<Region>, iova: nat, length: nat, access: T.Permissions)
    requires Canonical(t) && Ordered(rs) && T.ValidRange(iova, length)
  {
    && T.Lookup(t, iova, length, access).Found?
    && (FoundIsMapped(t, iova, length, access);
        ChunkBases(t, iova, iova + length);
        ChunksChecked(rs, T.Chunks(t, iova, iova + length)))
  }

  lemma {:induction false} ChunksCheckedExact(rs: seq<Region>, cs: seq<T.Chunk>)
    requires Ordered(rs) && forall i :: 0 <= i < |cs| ==> cs[i].base < TWO64
    ensures ChunksChecked(rs, cs) <==> MappedLen(rs, T.FlatAddrs(cs)) == |T.FlatAddrs(cs)|
  {
    if cs != [] {
      var addrs := WrapRange(cs[0].base, cs[0].length);
      assert T.ChunkAddrs(cs[0]) == addrs;
      ChunksCheckedExact(rs, cs[1..]);
      CheckRangeExact(rs, cs[0].base, cs[0].length);
      MappedLenConcat(rs, addrs, T.FlatAddrs(cs[1..]));
      MappedLenExact(rs, addrs);
      MappedLenExact(rs, T.FlatAddrs(cs[1..]));
    }
  }

  /** A range checks out exactly when its slices can be had without an error. */
  lemma CheckVRangeExact(t: T.Tlb, rs: seq<Region>, iova: nat, length: nat, access: T.Permissions)
    requires Canonical(t) && Ordered(rs) && T.ValidRange(iova, length)
    ensures CheckVRange(t, rs, iova, length, access) <==>
            var r := GetVSlices(t, rs, iova, length, access);
            r.Ok? && forall i :: 0 <= i < |r.value| ==> r.value[i].Ok?
  {
    hide T.Lookup, T.Chunks, ChunksChecked, VItems, PItems, Annotate, ExactRun, AllOk;
    hide MappedLen, T.Phys, T.FlatAddrs, Canonical, Sorted, Ordered, T.Mapped;
    if T.Lookup(t, iova, length, access).Found? {
      var end := iova + length;
      FoundIsMapped(t, iova, length, access);
      ChunkBases(t, iova, end);
      ChunksCheckedExact(rs, T.Chunks(t, iova, end));
      T.ChunksTranslate(t, iova, end);
      PItemsExact(t, rs, iova, end);
      VItemsArePItems(t, rs, iova, end);
      var items := PItems(t, rs, iova, end);
      ExactRunOk(rs, items, T.Phys(t, iova, end));
      AnnotateOk(items, iova);
    }
  }

  lemma {:induction false} AnnotateOk(items: seq<Item>, iova: nat)
    ensures AllOk(items) <==> forall i :: 0 <= i < |Annotate(items, iova)| ==> Annotate(items, iova)[i].Ok?
  {
    var v := Annotate(items, iova);
    if items != [] { AnnotateMeaning(items, iova, 0); }
    forall i | 0 <= i < |items| ensures items[i].Ok? <==> v[i].Ok? { AnnotateMeaning(items, iova, i); }
  }

  lemma RunDone(t: T.Tlb, rs: seq<Region>, end: nat)
    requires Consistent(t, rs, Progress(end, end, end, None))
    ensures VItems(t, rs, Progress(end, end, end, None)) == []
  {
  }

  // ----- The iterator object -----

  class IommuSliceIterator {
    const tlb: T.Tlb
    const regions: seq<Region>
    var iova: nat
    var translation: Option<Span>
    var current: Option<Cursor>

    ghost predicate Valid()
      reads this
    {
      if translation.Some? then
        Consistent(tlb, regions, Progress(iova, translation.value.start, translation.value.end, current))
      else current.None?
    }

    /** What is still to come. */
    ghost function Remaining(): seq<VItem>
      requires Valid()
      reads this
    {
      if translation.Some? then
        VItems(tlb, regions, Progress(iova, translation.value.start, translation.value.end, current))
      else []
    }

    /** Made from a successful translation. */
    constructor (t: T.Tlb, rs: seq<Region>, start: nat, length: nat, access: T.Permissions)
      requires Canonical(t) && Ordered(rs) && T.ValidRange(start, length) && T.Lookup(t, start, length, access).Found?
      ensures Valid() && Ok(Remaining()) == GetVSlices(t, rs, start, length, access)
    {
      FoundIsMapped(t, start, length, access);
      tlb, regions, iova := t, rs, start;
      translation, current := Some(Span(start, start + length)), None;
    }

    method DoNext() returns (r: Option<VItem>)
      requires Valid()
      modifies this
      ensures r.None? ==> old(Remaining()) == []
      ensures r.Some? && r.value.Ok? ==> Valid() && old(Remaining()) == [r.value] + Remaining()
      ensures r.Some? && r.value.Err? ==> old(Remaining()) == [r.value]
    {
      hide NextCursor, Step, Sorted, Ordered, VItems, Items, Annotate, AllOk;
      while true
        invariant Valid() && Remaining() == old(Remaining())
        decreases if translation.Some? then translation.value.end - translation.value.start else 0
      {
        if current.Some? {
          StepExact(regions, current.value);
          var (item, c) := Step(regions, current.value);
          ghost var p := Progress(iova, translation.value.start, translation.value.end, current);
          if item.Some? {
            ChunkNext(tlb, regions, p);
            if item.value.Err? {
              return Some(Err(item.value.error));
            }
            var slice := item.value.value;
            r := Some(Ok(VSlice(slice, iova)));
            if iova + slice.len > TWO64 {
              return Some(Err(GuestAddressOverflow));
            }
            current := Some(c);
            iova := (iova + slice.len) % TWO64;
            return;
          }
          ChunkDone(tlb, regions, p);
          current := Some(c);
          ChunkDone(tlb, regions, p.(current := current));
        }
        if translation.None? || translation.value.start == translation.value.end {
          if translation.Some? { RunDone(tlb, regions, translation.value.end); }
          return None;
        }
        var span := translation.value;
        VLoads(tlb, regions, span.start, span.end);
        var next := NextCursor(tlb, span.start, span.end);
        translation, current := Some(span.(start := span.start + next.count)), Some(next);
      }
    }

    /** Yields the items of the run one by one; after an error or the end, `None` for ever. */
    method Next() returns (r: Option<VItem>)
      requires Valid()
      modifies this
      ensures Valid()
      ensures old(Remaining()) == (if r.Some? then [r.value] else []) + Remaining()
      ensures r.None? || r.value.Err? ==> Remaining() == []
    {
      r := DoNext();
      if r.None? || r.value.Err? {
        current, translation := None, None;
      }
    }
  }
}

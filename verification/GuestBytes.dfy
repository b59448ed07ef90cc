/**
Byte access to guest memory: `write` and `read` over physical regions and behind an IOMMU.
*/
module GuestBytes {
  import opened Basics
  import T = Iotlbs
  import RM = RangeMaps
  import opened GuestRegions
  import opened GuestSlices
  import V = IommuMemories

  /** The contents of each region. */
  type Cells = seq<seq<Byte>>

  predicate Fits(rs: seq<Region>, cells: Cells) {
    |cells| == |rs| && forall i :: 0 <= i < |rs| ==> |cells[i]| == rs[i].len
  }

  // ----- The byte-by-byte view -----

  function Put(c: seq<Byte>, i: nat, b: Byte): seq<Byte>
    requires i < |c|
  {
    c[i := b]
  }

  function Load(rs: seq<Region>, cells: Cells, a: nat): Option<Byte>
    requires Ordered(rs) && Fits(rs, cells)
  {
    match ToRegionAddr(rs, a)
    case None => None
    case Some((i, offset)) => Some(cells[i][offset])
  }

  function Poke(rs: seq<Region>, cells: Cells, a: nat, b: Byte): (r: Cells)
    requires Ordered(rs) && Fits(rs, cells)
    ensures Fits(rs, r)
  {
    match ToRegionAddr(rs, a)
    case None => cells
    case Some((i, offset)) => cells[i := Put(cells[i], offset, b)]
  }

  lemma PokeMeaning(rs: seq<Region>, cells: Cells, a: nat, b: Byte, x: nat)
    requires Ordered(rs) && Fits(rs, cells)
    ensures Load(rs, Poke(rs, cells, a, b), x) == if x == a && Mapped(rs, a) then Some(b) else Load(rs, cells, x)
  {
  }

  /** `data` stored byte by byte, in order. */
  function PokeAll(rs: seq<Region>, cells: Cells, addrs: seq<nat>, data: seq<Byte>): (r: Cells)
    requires Ordered(rs) && Fits(rs, cells) && |addrs| == |data|
    ensures Fits(rs, r)
    decreases |addrs|
  {
    if addrs == [] then cells else PokeAll(rs, Poke(rs, cells, addrs[0], data[0]), addrs[1..], data[1..])
  }

  predicate AllIn(rs: seq<Region>, cells: Cells, addrs: seq<nat>)
    requires Ordered(rs) && Fits(rs, cells)
  {
    forall k :: 0 <= k < |addrs| ==> Load(rs, cells, addrs[k]).Some?
  }

  lemma MappedIsIn(rs: seq<Region>, cells: Cells, addrs: seq<nat>)
    requires Ordered(rs) && Fits(rs, cells)
    ensures AllIn(rs, cells, addrs[..MappedPrefix(rs, addrs)])
  {
    MappedLenExact(rs, addrs);
    var n := MappedPrefix(rs, addrs);
    forall k | 0 <= k < n ensures Load(rs, cells, addrs[..n][k]).Some? {
      assert addrs[..n][k] == addrs[k];
    }
  }

  ghost function MappedPrefix(rs: seq<Region>, addrs: seq<nat>): (n: nat)
    ensures n <= |addrs|
  {
    MappedLenExact(rs, addrs);
    MappedLen(rs, addrs)
  }

  function Peeks(rs: seq<Region>, cells: Cells, addrs: seq<nat>): (r: seq<Byte>)
    requires Ordered(rs) && Fits(rs, cells) && AllIn(rs, cells, addrs)
    ensures |r| == |addrs|
    ensures forall k :: 0 <= k < |addrs| ==> r[k] == Load(rs, cells, addrs[k]).value
  {
    seq(|addrs|, k requires 0 <= k < |addrs| => Load(rs, cells, addrs[k]).value)
  }

  ghost predicate LastAt(addrs: seq<nat>, k: int) {
    0 <= k < |addrs| && forall j :: k < j < |addrs| ==> addrs[j] != addrs[k]
  }

  /** A byte that is stored to is what was stored there last; every other byte is what it was. */
  lemma {:induction false} PokeAllMeaning(rs: seq<Region>, cells: Cells, addrs: seq<nat>, data: seq<Byte>, x: nat)
    requires Ordered(rs) && Fits(rs, cells) && |addrs| == |data|
    ensures x !in addrs ==> Load(rs, PokeAll(rs, cells, addrs, data), x) == Load(rs, cells, x)
    ensures Mapped(rs, x) ==> forall k :: LastAt(addrs, k) && addrs[k] == x ==>
                                Load(rs, PokeAll(rs, cells, addrs, data), x) == Some(data[k])
    decreases |addrs|
  {
    hide Load, Poke;
    if addrs != [] {
      PokeAllMeaning(rs, Poke(rs, cells, addrs[0], data[0]), addrs[1..], data[1..], x);
      PokeMeaning(rs, cells, addrs[0], data[0], x);
      forall k | LastAt(addrs, k) && addrs[k] == x && Mapped(rs, x)
        ensures Load(rs, PokeAll(rs, cells, addrs, data), x) == Some(data[k])
      {
        if k > 0 {
          LastInTail(addrs, k);
        } else {
          assert x !in addrs[1..];
        }
      }
    }
  }

  lemma LastInTail(addrs: seq<nat>, k: int)
    requires LastAt(addrs, k) && k > 0
    ensures LastAt(addrs[1..], k - 1)
  {
    forall j | k - 1 < j < |addrs| - 1 ensures addrs[1..][j] != addrs[1..][k - 1] {
      assert addrs[1..][j] == addrs[j + 1];
    }
  }

  lemma {:induction false} PokeAllConcat(rs: seq<Region>, cells: Cells,
                                         a: seq<nat>, x: seq<Byte>, b: seq<nat>, y: seq<Byte>)
    requires Ordered(rs) && Fits(rs, cells) && |a| == |x| && |b| == |y|
    ensures PokeAll(rs, cells, a + b, x + y) == PokeAll(rs, PokeAll(rs, cells, a, x), b, y)
    decreases |a|
  {
    hide Poke;
    if a == [] {
      assert a + b == b && x + y == y;
    } else {
      PokeAllConcat(rs, Poke(rs, cells, a[0], x[0]), a[1..], x[1..], b, y);
      assert (a + b)[1..] == a[1..] + b && (x + y)[1..] == x[1..] + y;
    }
  }

  /** Two bytes that land on the same address are the same. */
  predicate Agrees(addrs: seq<nat>, data: seq<Byte>)
    requires |addrs| == |data|
  {
    forall j, k :: 0 <= j < k < |addrs| && addrs[j] == addrs[k] ==> data[j] == data[k]
  }

  lemma {:induction false} LastOf(addrs: seq<nat>, j: nat) returns (k: nat)
    requires j < |addrs|
    ensures j <= k && LastAt(addrs, k) && addrs[k] == addrs[j]
    decreases |addrs| - j
  {
    if i :| j < i < |addrs| && addrs[i] == addrs[j] {
      k := LastOf(addrs, i);
    } else {
      k := j;
    }
  }

  /** What was written is read back exactly when no address is written two different bytes. */
  lemma ReadBack(rs: seq<Region>, cells: Cells, addrs: seq<nat>, data: seq<Byte>)
    requires Ordered(rs) && Fits(rs, cells) && |addrs| == |data| && AllIn(rs, cells, addrs)
    ensures AllIn(rs, PokeAll(rs, cells, addrs, data), addrs)
    ensures Peeks(rs, PokeAll(rs, cells, addrs, data), addrs) == data <==> Agrees(addrs, data)
  {
    hide PokeAll;
    var after := PokeAll(rs, cells, addrs, data);
    forall j | 0 <= j < |addrs|
      ensures exists k :: j <= k && LastAt(addrs, k) && addrs[k] == addrs[j] &&
                          Load(rs, after, addrs[j]) == Some(data[k])
    {
      var k := LastOf(addrs, j);
      PokeAllMeaning(rs, cells, addrs, data, addrs[j]);
    }
    if Peeks(rs, after, addrs) == data {
      forall j, k | 0 <= j < k < |addrs| && addrs[j] == addrs[k] ensures data[j] == data[k] {
        assert data[j] == Peeks(rs, after, addrs)[j] && data[k] == Peeks(rs, after, addrs)[k];
      }
    }
  }

  // ----- Slices -----

  function StoreSlice(cells: Cells, s: Slice, data: seq<Byte>): Cells
    requires s.region < |cells| && s.offset + |data| <= |cells[s.region]|
  {
    var c := cells[s.region];
    cells[s.region := c[..s.offset] + data + c[s.offset + |data|..]]
  }

  lemma {:induction false} StoreSliceIsPokes(rs: seq<Region>, cells: Cells, s: Slice, data: seq<Byte>)
    requires Ordered(rs) && Fits(rs, cells) && InBounds(rs, s) && |data| == s.len
    ensures StoreSlice(cells, s, data) == PokeAll(rs, cells, SliceAddrs(rs, s), data)
    decreases |data|
  {
    hide StoreSlice, Poke, Put, Ordered;
    if data == [] {
      StoreNothing(cells, s);
    } else {
      var s' := Slice(s.region, s.offset + 1, s.len - 1);
      PokeSlot(rs, cells, s.region, s.offset, data[0]);
      StoreStep(cells, s, data);
      StoreSliceIsPokes(rs, Poke(rs, cells, rs[s.region].start + s.offset, data[0]), s', data[1..]);
      assert SliceAddrs(rs, s)[1..] == SliceAddrs(rs, s');
    }
  }

  lemma StoreNothing(cells: Cells, s: Slice)
    requires s.region < |cells| && s.offset <= |cells[s.region]|
    ensures StoreSlice(cells, s, []) == cells
  {
    var c := cells[s.region];
    assert c[..s.offset] + [] + c[s.offset..] == c;
  }

  lemma StoreStep(cells: Cells, s: Slice, data: seq<Byte>)
    requires s.region < |cells| && s.offset + |data| <= |cells[s.region]| && data != [] && s.len > 0
    ensures StoreSlice(cells, s, data) ==
            StoreSlice(cells[s.region := Put(cells[s.region], s.offset, data[0])],
                       Slice(s.region, s.offset + 1, s.len - 1), data[1..])
  {
    var c := cells[s.region];
    var c' := Put(c, s.offset, data[0]);
    assert c[..s.offset] + data + c[s.offset + |data|..]
        == c'[..s.offset + 1] + data[1..] + c'[s.offset + 1 + |data[1..]|..];
  }

  lemma PokeSlot(rs: seq<Region>, cells: Cells, i: nat, offset: nat, b: Byte)
    requires Ordered(rs) && Fits(rs, cells) && i < |rs| && offset < rs[i].len
    ensures Poke(rs, cells, rs[i].start + offset, b) == cells[i := Put(cells[i], offset, b)]
  {
    UniqueSlot(rs, i, offset);
  }

  lemma UniqueSlot(rs: seq<Region>, i: nat, offset: nat)
    requires Ordered(rs) && i < |rs| && offset < rs[i].len
    ensures ToRegionAddr(rs, rs[i].start + offset) == Some((i, offset))
  {
    var a := rs[i].start + offset;
    assert Contains(rs[i], a);
    UniqueOwner(rs, i, ToRegionAddr(rs, a).value.0, a);
  }

  lemma LoadSlice(rs: seq<Region>, cells: Cells, s: Slice)
    requires Ordered(rs) && Fits(rs, cells) && InBounds(rs, s)
    ensures AllIn(rs, cells, SliceAddrs(rs, s))
    ensures Peeks(rs, cells, SliceAddrs(rs, s)) == cells[s.region][s.offset..s.offset + s.len]
  {
    hide Load, Ordered;
    forall k | 0 <= k < s.len
      ensures Load(rs, cells, SliceAddrs(rs, s)[k]) == Some(cells[s.region][s.offset + k])
    {
      LoadSlot(rs, cells, s.region, s.offset + k);
    }
  }

  lemma LoadSlot(rs: seq<Region>, cells: Cells, i: nat, offset: nat)
    requires Ordered(rs) && Fits(rs, cells) && i < |rs| && offset < rs[i].len
    ensures Load(rs, cells, rs[i].start + offset) == Some(cells[i][offset])
  {
    UniqueSlot(rs, i, offset);
  }

  /** A buffer with `part` written over it from index `at` on. */
  function Overlaid(buf: seq<Byte>, at: nat, part: seq<Byte>): (r: seq<Byte>)
    requires at + |part| <= |buf|
    ensures |r| == |buf|
  {
    buf[..at] + part + buf[at + |part|..]
  }

  /** The next part of a buffer that is filled from the front. */
  lemma NextPart(first: seq<Byte>, done: seq<Byte>, before: seq<Byte>, part: seq<Byte>, after: seq<Byte>)
    requires |done| + |part| <= |first| && before == done + first[|done|..]
    requires after == Overlaid(before, |done|, part)
    ensures after == done + part + first[|done| + |part|..]
  {
    assert before[..|done|] == done;
    assert before[|done| + |part|..] == first[|done| + |part|..];
  }

  /** `now` is the buffer `first`, filled from the front with the bytes at `addrs`. */
  ghost predicate ReadUpTo(rs: seq<Region>, cells: Cells, addrs: seq<nat>, first: seq<Byte>, now: seq<Byte>) {
    && Ordered(rs) && Fits(rs, cells) && AllIn(rs, cells, addrs) && |addrs| <= |first|
    && now == Peeks(rs, cells, addrs) + first[|addrs|..]
  }

  lemma ReadOn(rs: seq<Region>, cells: Cells, done: seq<nat>, first: seq<Byte>, before: seq<Byte>, addrs: seq<nat>,
               after: seq<Byte>)
    requires ReadUpTo(rs, cells, done, first, before)
    requires AllIn(rs, cells, addrs) && |done| + |addrs| <= |first| == |before|
    requires after == Overlaid(before, |done|, Peeks(rs, cells, addrs))
    ensures ReadUpTo(rs, cells, done + addrs, first, after)
  {
    hide Load, Ordered, Fits, AllIn;
    PeeksConcat(rs, cells, done, addrs);
    NextPart(first, Peeks(rs, cells, done), before, Peeks(rs, cells, addrs), after);
  }

  // ----- Guest memory -----

  datatype SliceError = OutOfBounds(addr: nat)

  datatype AccessError = Guest(error: Error) | Denied(fails: T.Fails)

  class GuestMemory {
    const regions: seq<Region>
    var cells: Cells

    ghost predicate Valid()
      reads this
    {
      Ordered(regions) && Fits(regions, cells)
    }

    constructor (rs: seq<Region>, contents: Cells)
      requires Ordered(rs) && Fits(rs, contents)
      ensures Valid() && regions == rs && cells == contents
    {
      regions, cells := rs, contents;
    }

    /** VolatileSlice::write: as much of `buf` as fits behind `addr`. */
    method WriteSlice(s: Slice, buf: seq<Byte>, addr: nat) returns (r: Result<nat, SliceError>)
      requires Valid() && InBounds(regions, s)
      modifies this
      ensures Valid()
      ensures r == if buf == [] then Ok(0) else if addr >= s.len then Err(OutOfBounds(addr))
                   else Ok(Min(s.len - addr, |buf|))
      ensures r.Err? || r.value == 0 ==> cells == old(cells)
      ensures r.Ok? && r.value > 0 ==>
                cells == PokeAll(regions, old(cells), SliceAddrs(regions, s)[addr..addr + r.value], buf[..r.value])
    {
      hide PokeAll, StoreSlice, Ordered;
      if buf == [] {
        return Ok(0);
      }
      if addr >= s.len {
        return Err(OutOfBounds(addr));
      }
      var n := Min(s.len - addr, |buf|);
      var part := Slice(s.region, s.offset + addr, n);
      StoreSliceIsPokes(regions, cells, part, buf[..n]);
      assert SliceAddrs(regions, s)[addr..addr + n] == SliceAddrs(regions, part);
      cells := StoreSlice(cells, part, buf[..n]);
      r := Ok(n);
    }

    /** VolatileSlice::read, from `addr` on, into `buf` from index `at` on. */
    method ReadSlice(s: Slice, buf: array<Byte>, at: nat, addr: nat) returns (r: Result<nat, SliceError>)
      requires Valid() && InBounds(regions, s) && at <= buf.Length
      modifies buf
      ensures r == if at == buf.Length then Ok(0) else if addr >= s.len then Err(OutOfBounds(addr))
                   else Ok(Min(s.len - addr, buf.Length - at))
      ensures r.Err? || r.value == 0 ==> buf[..] == old(buf[..])
      ensures r.Ok? && r.value > 0 ==>
                && var addrs := SliceAddrs(regions, s)[addr..addr + r.value];
                && AllIn(regions, cells, addrs)
                && buf[..] == Overlaid(old(buf[..]), at, Peeks(regions, cells, addrs))
    {
      hide Ordered, Load;
      if at == buf.Length {
        return Ok(0);
      }
      if addr >= s.len {
        return Err(OutOfBounds(addr));
      }
      var n := Min(s.len - addr, buf.Length - at);
      var part := Slice(s.region, s.offset + addr, n);
      LoadSlice(regions, cells, part);
      assert SliceAddrs(regions, s)[addr..addr + n] == SliceAddrs(regions, part);
      forall k | 0 <= k < n {
        buf[at + k] := cells[s.region][s.offset + addr + k];
      }
      r := Ok(n);
    }

    /** The fold of `write` over the slices of a run, after an error-free start. */
    method WriteRun(items: seq<Item>, buf: seq<Byte>) returns (acc: nat)
      requires Valid() && GoodItems(regions, items) && |Flat(regions, items)| <= |buf|
      modifies this
      ensures Valid() && acc == |Flat(regions, items)|
      ensures cells == PokeAll(regions, old(cells), Flat(regions, items), buf[..acc])
    {
      hide PokeAll, Flat, Ordered;
      FlatNone(regions, cells, items, buf);
      acc := 0;
      var i := 0;
      while i < |items|
        invariant i <= |items| && Valid()
        invariant acc == |Flat(regions, items[..i])| && acc + |Flat(regions, items[i..])| <= |buf|
        invariant cells == PokeAll(regions, old(cells), Flat(regions, items[..i]), buf[..acc])
      {
        FlatStep(regions, items, i);
        if items[i].Ok? {
          var s := items[i].value;
          ghost var addrs := SliceAddrs(regions, s);
          PokeAllConcat(regions, old(cells), Flat(regions, items[..i]), buf[..acc], addrs, buf[acc..][..s.len]);
          var w := WriteSlice(s, buf[acc..], 0);
          var n := w.value;
          assert addrs[..n] == addrs && buf[..acc] + buf[acc..][..n] == buf[..acc + n];
          acc := acc + n;
        }
        i := i + 1;
      }
      assert items[..i] == items;
    }

    /** The fold of `read` over the slices of a run, after an error-free start. */
    method ReadRun(items: seq<Item>, buf: array<Byte>) returns (acc: nat)
      requires Valid() && GoodItems(regions, items) && |Flat(regions, items)| <= buf.Length
      modifies buf
      ensures acc == |Flat(regions, items)|
      ensures ReadUpTo(regions, cells, Flat(regions, items), old(buf[..]), buf[..])
    {
      hide Flat, Ordered, Fits, Load, AllIn, Peeks, ReadUpTo, Overlaid, SliceAddrs;
      FlatNone(regions, cells, items, []);
      NothingRead(regions, cells, buf[..]);
      acc := 0;
      var i := 0;
      while i < |items|
        invariant i <= |items|
        invariant acc == |Flat(regions, items[..i])| && acc + |Flat(regions, items[i..])| <= buf.Length
        invariant ReadUpTo(regions, cells, Flat(regions, items[..i]), old(buf[..]), buf[..])
      {
        FlatStep(regions, items, i);
        if items[i].Ok? {
          var s := items[i].value;
          ghost var before, done := buf[..], Flat(regions, items[..i]);
          ghost var addrs := SliceAddrs(regions, s);
          var w := ReadSlice(s, buf, acc, 0);
          var n := w.value;
          assert addrs[..n] == addrs;
          ReadOn(regions, cells, done, old(buf[..]), before, addrs, buf[..]);
          acc := acc + n;
        }
        i := i + 1;
      }
      assert items[..i] == items;
    }

    /** The general path of `write`: stop at the first error, or report it if nothing came before. */
    method WriteItems(items: seq<Item>, ghost addrs: seq<nat>, buf: seq<Byte>) returns (r: Result<nat, AccessError>)
      requires Valid() && |addrs| == |buf| && ExactRun(regions, items, addrs)
      modifies this
      ensures Valid() && r == Transferred(regions, addrs)
      ensures cells == WriteFrom(regions, old(cells), addrs, buf)
    {
      hide PokeAll, Flat, Ordered;
      RunStart(regions, cells, items, addrs);
      if items != [] && items[0].Err? {
        return Err(Guest(items[0].error));
      }
      var acc := WriteRun(items, buf);
      r := Ok(acc);
    }

    method ReadItems(items: seq<Item>, ghost addrs: seq<nat>, buf: array<Byte>) returns (r: Result<nat, AccessError>)
      requires Valid() && |addrs| == buf.Length && ExactRun(regions, items, addrs)
      modifies buf
      ensures r == Transferred(regions, addrs)
      ensures buf[..] == ReadInto(regions, cells, addrs, old(buf[..]))
    {
      hide Flat, Ordered, Load;
      RunStart(regions, cells, items, addrs);
      MappedIsIn(regions, cells, addrs);
      if items != [] && items[0].Err? {
        return Err(Guest(items[0].error));
      }
      var acc := ReadRun(items, buf);
      r := Ok(acc);
    }

    /**
    Transfers exactly the longest mapped prefix of the addressed bytes; fails, and changes nothing, only when
    there are bytes to write and the first of them is not mapped.
    */
    method Write(buf: seq<Byte>, addr: nat) returns (r: Result<nat, AccessError>)
      requires Valid() && addr < TWO64
      modifies this
      ensures Valid()
      ensures var addrs := WrapRange(addr, |buf|);
              r == Transferred(regions, addrs) && cells == WriteFrom(regions, old(cells), addrs, buf)
    {
      hide PokeAll, Ordered, ExactRun;
      var fast := GetSlice(regions, addr, |buf|);
      if fast.Ok? {
        FastPath(regions, addr, |buf|);
        NothingStored(regions, cells);
        var w := WriteSlice(fast.value, buf, 0);
        return Ok(w.value);
      }
      GetSlicesExact(regions, Cursor(addr, |buf|));
      r := WriteItems(Items(regions, Cursor(addr, |buf|)), WrapRange(addr, |buf|), buf);
    }

    method Read(buf: array<Byte>, addr: nat) returns (r: Result<nat, AccessError>)
      requires Valid() && addr < TWO64
      modifies buf
      ensures var addrs := WrapRange(addr, buf.Length);
              r == Transferred(regions, addrs) && buf[..] == ReadInto(regions, cells, addrs, old(buf[..]))
    {
      hide Ordered, Load, ExactRun;
      MappedIsIn(regions, cells, WrapRange(addr, buf.Length));
      var fast := GetSlice(regions, addr, buf.Length);
      if fast.Ok? {
        FastPath(regions, addr, buf.Length);
        var w := ReadSlice(fast.value, buf, 0, 0);
        return Ok(w.value);
      }
      GetSlicesExact(regions, Cursor(addr, buf.Length));
      r := ReadItems(Items(regions, Cursor(addr, buf.Length)), WrapRange(addr, buf.Length), buf);
    }

    /** `write` behind an enabled IOMMU: nothing at all is stored unless the whole range may be written. */
    method WriteVirtual(t: T.Tlb, buf: seq<Byte>, iova: nat) returns (r: Result<nat, AccessError>)
      requires Valid() && RM.Canonical(t) && T.ValidRange(iova, |buf|)
      modifies this
      ensures Valid()
      ensures !T.AllAccessible(t, iova, iova + |buf|, T.Write) ==>
                && cells == old(cells) && r.Err? && r.error.Denied?
                && T.ExactFails(t, iova, iova + |buf|, T.Write, r.error.fails)
      ensures T.AllAccessible(t, iova, iova + |buf|, T.Write) ==>
                && T.Mapped(t, iova, iova + |buf|)
                && var addrs := T.Phys(t, iova, iova + |buf|);
                && |addrs| == |buf| && r == Transferred(regions, addrs)
                && cells == WriteFrom(regions, old(cells), addrs, buf)
    {
      hide PokeAll, Ordered, ExactRun, T.AllAccessible, T.ExactFails, T.Mapped, T.Phys, V.Annotate;
      V.GetVSlicesExact(t, regions, iova, |buf|, T.Write);
      var slices := V.GetVSlices(t, regions, iova, |buf|, T.Write);
      if slices.Err? {
        return Err(Denied(slices.error.fails));
      }
      ghost var items :|
        ExactRun(regions, items, T.Phys(t, iova, iova + |buf|)) && slices.value == V.Annotate(items, iova);
      StripAnnotate(items, iova);
      r := WriteItems(Strip(slices.value), T.Phys(t, iova, iova + |buf|), buf);
    }

    method ReadVirtual(t: T.Tlb, buf: array<Byte>, iova: nat) returns (r: Result<nat, AccessError>)
      requires Valid() && RM.Canonical(t) && T.ValidRange(iova, buf.Length)
      modifies buf
      ensures !T.AllAccessible(t, iova, iova + buf.Length, T.Read) ==>
                && buf[..] == old(buf[..]) && r.Err? && r.error.Denied?
                && T.ExactFails(t, iova, iova + buf.Length, T.Read, r.error.fails)
      ensures T.AllAccessible(t, iova, iova + buf.Length, T.Read) ==>
                && T.Mapped(t, iova, iova + buf.Length)
                && var addrs := T.Phys(t, iova, iova + buf.Length);
                && |addrs| == buf.Length && r == Transferred(regions, addrs)
                && buf[..] == ReadInto(regions, cells, addrs, old(buf[..]))
    {
      hide Ordered, Load, ExactRun, T.AllAccessible, T.ExactFails, T.Mapped, T.Phys, V.Annotate;
      V.GetVSlicesExact(t, regions, iova, buf.Length, T.Read);
      var slices := V.GetVSlices(t, regions, iova, buf.Length, T.Read);
      if slices.Err? {
        return Err(Denied(slices.error.fails));
      }
      ghost var items :|
        ExactRun(regions, items, T.Phys(t, iova, iova + buf.Length)) && slices.value == V.Annotate(items, iova);
      StripAnnotate(items, iova);
      r := ReadItems(Strip(slices.value), T.Phys(t, iova, iova + buf.Length), buf);
    }
  }

  /** The outcome of a transfer over `addrs`. */
  ghost function Transferred(rs: seq<Region>, addrs: seq<nat>): Result<nat, AccessError> {
    var n := MappedPrefix(rs, addrs);
    if n == 0 && addrs != [] then Err(Guest(InvalidGuestAddress(addrs[0]))) else Ok(n)
  }

  /** Memory after the longest mapped prefix has been stored. */
  ghost function WriteFrom(rs: seq<Region>, cells: Cells, addrs: seq<nat>, buf: seq<Byte>): Cells
    requires Ordered(rs) && Fits(rs, cells) && |addrs| == |buf|
  {
    var n := MappedPrefix(rs, addrs);
    PokeAll(rs, cells, addrs[..n], buf[..n])
  }

  /** A buffer after the longest mapped prefix has been read into it. */
  ghost function ReadInto(rs: seq<Region>, cells: Cells, addrs: seq<nat>, buf: seq<Byte>): seq<Byte>
    requires Ordered(rs) && Fits(rs, cells) && |addrs| == |buf|
  {
    MappedIsIn(rs, cells, addrs);
    var n := MappedPrefix(rs, addrs);
    Peeks(rs, cells, addrs[..n]) + buf[n..]
  }

  function Strip(items: seq<V.VItem>): (r: seq<Item>)
    ensures |r| == |items|
    ensures forall i :: 0 <= i < |items| ==>
                          r[i] == if items[i].Ok? then Ok(items[i].value.slice) else Err(items[i].error)
  {
    seq(|items|, i requires 0 <= i < |items| =>
      if items[i].Ok? then Ok(items[i].value.slice) else Err(items[i].error))
  }

  lemma StripAnnotate(items: seq<Item>, iova: nat)
    ensures Strip(V.Annotate(items, iova)) == items
  {
    if items != [] { V.AnnotateMeaning(items, iova, 0); }
    forall i | 0 <= i < |items| ensures Strip(V.Annotate(items, iova))[i] == items[i] {
      V.AnnotateMeaning(items, iova, i);
    }
  }

  /** A run begins with an error exactly when its first address is unmapped. */
  lemma RunStart(rs: seq<Region>, cells: Cells, items: seq<Item>, addrs: seq<nat>)
    requires Ordered(rs) && Fits(rs, cells) && ExactRun(rs, items, addrs)
    ensures Flat(rs, items) == addrs[..MappedPrefix(rs, addrs)]
    ensures items != [] && items[0].Err? <==> Transferred(rs, addrs).Err?
    ensures items != [] && items[0].Err? ==> Transferred(rs, addrs) == Err(Guest(items[0].error))
    ensures forall buf: seq<Byte> {:trigger buf[..0]} :: PokeAll(rs, cells, [], buf[..0]) == cells
  {
    var n := MappedPrefix(rs, addrs);
    if items != [] && items[0].Err? {
      assert |items| == 1;
      assert Flat(rs, items) == Flat(rs, items[1..]) == [];
    } else if items != [] {
      assert SliceAddrs(rs, items[0].value)[0] == Flat(rs, items)[0];
    }
  }

  lemma FastPath(rs: seq<Region>, a: nat, count: nat)
    requires Ordered(rs) && GetSlice(rs, a, count).Ok?
    ensures var s := GetSlice(rs, a, count).value;
            && InBounds(rs, s) && s.len == count
            && SliceAddrs(rs, s) == WrapRange(a, count) && MappedPrefix(rs, WrapRange(a, count)) == count
  {
    WithinRegion(rs, GetSlice(rs, a, count).value, a);
  }

  lemma PeeksConcat(rs: seq<Region>, cells: Cells, a: seq<nat>, b: seq<nat>)
    requires Ordered(rs) && Fits(rs, cells) && AllIn(rs, cells, a) && AllIn(rs, cells, b)
    ensures AllIn(rs, cells, a + b) && Peeks(rs, cells, a + b) == Peeks(rs, cells, a) + Peeks(rs, cells, b)
  {
    hide Load;
    forall k | 0 <= k < |a + b| ensures Load(rs, cells, (a + b)[k]).Some? {
      assert (a + b)[k] == if k < |a| then a[k] else b[k - |a|];
    }
  }

  lemma NothingStored(rs: seq<Region>, cells: Cells)
    requires Ordered(rs) && Fits(rs, cells)
    ensures PokeAll(rs, cells, [], []) == cells
  {
  }

  lemma NothingRead(rs: seq<Region>, cells: Cells, buf: seq<Byte>)
    requires Ordered(rs) && Fits(rs, cells)
    ensures ReadUpTo(rs, cells, [], buf, buf)
  {
  }

  lemma FlatNone(rs: seq<Region>, cells: Cells, items: seq<Item>, buf: seq<Byte>)
    requires Ordered(rs) && Fits(rs, cells) && GoodItems(rs, items)
    ensures Flat(rs, items[..0]) == [] && PokeAll(rs, cells, [], buf[..0]) == cells
    ensures items[0..] == items
  {
  }

  lemma FlatStep(rs: seq<Region>, items: seq<Item>, i: nat)
    requires GoodItems(rs, items) && i < |items|
    ensures items[i].Ok? ==>
              var addrs := SliceAddrs(rs, items[i].value);
              && Flat(rs, items[..i + 1]) == Flat(rs, items[..i]) + addrs
              && Flat(rs, items[i..]) == addrs + Flat(rs, items[i + 1..])
    ensures items[i].Err? ==>
              && Flat(rs, items[..i + 1]) == Flat(rs, items[..i])
              && Flat(rs, items[i..]) == Flat(rs, items[i + 1..])
  {
    assert items[..i + 1] == items[..i] + [items[i]];
    V.FlatConcat(rs, items[..i], [items[i]]);
    assert Flat(rs, [items[i]]) == (if items[i].Ok? then SliceAddrs(rs, items[i].value) else []) + Flat(rs, []);
    assert items[i..][1..] == items[i + 1..];
  }

  // ----- What a transfer does to memory -----

  /** Of the whole memory, exactly the addressed, mapped prefix changes. */
  lemma WriteFrame(rs: seq<Region>, cells: Cells, addrs: seq<nat>, buf: seq<Byte>, x: nat)
    requires Ordered(rs) && Fits(rs, cells) && |addrs| == |buf|
    ensures var n := MappedPrefix(rs, addrs);
            x !in addrs[..n] ==> Load(rs, WriteFrom(rs, cells, addrs, buf), x) == Load(rs, cells, x)
  {
    var n := MappedPrefix(rs, addrs);
    PokeAllMeaning(rs, cells, addrs[..n], buf[..n], x);
  }

  /** Reading back what was written gives the written bytes, unless two of them fell on the same address and differ. */
  lemma WriteThenRead(rs: seq<Region>, cells: Cells, addrs: seq<nat>, data: seq<Byte>, buf: seq<Byte>)
    requires Ordered(rs) && Fits(rs, cells) && |addrs| == |data| == |buf|
    ensures var n := MappedPrefix(rs, addrs);
            ReadInto(rs, WriteFrom(rs, cells, addrs, data), addrs, buf) == data[..n] + buf[n..]
            <==> Agrees(addrs[..n], data[..n])
  {
    var n := MappedPrefix(rs, addrs);
    MappedIsIn(rs, cells, addrs);
    ReadBack(rs, cells, addrs[..n], data[..n]);
    var got := Peeks(rs, WriteFrom(rs, cells, addrs, data), addrs[..n]);
    assert (got + buf[n..])[..n] == got && (data[..n] + buf[n..])[..n] == data[..n];
  }

  /** Physical ranges never address a byte twice, so they always read back. */
  lemma PhysicalReadBack(rs: seq<Region>, cells: Cells, a: nat, data: seq<Byte>, buf: seq<Byte>)
    requires Ordered(rs) && Fits(rs, cells) && |data| == |buf| <= TWO64
    ensures var addrs := WrapRange(a, |data|);
            var n := MappedPrefix(rs, addrs);
            ReadInto(rs, WriteFrom(rs, cells, addrs, data), addrs, buf) == data[..n] + buf[n..]
  {
    hide Ordered, Fits, ReadInto, WriteFrom;
    var addrs := WrapRange(a, |data|);
    var n := MappedPrefix(rs, addrs);
    forall j, k | 0 <= j < k < n ensures addrs[..n][j] != addrs[..n][k] {
      WrapDistinct(a, j, k);
    }
    WriteThenRead(rs, cells, addrs, data, buf);
  }

  lemma WrapDistinct(a: nat, j: nat, k: nat)
    requires j < k < TWO64
    ensures Wrap(a, j) != Wrap(a, k)
  {
  }

  /** I/O virtual bytes 0 and 1, both mapped to physical byte 0. */
  function Aliased(): T.Tlb {
    [RM.Entry(0, 1, T.Mapping(0, T.ReadWrite)), RM.Entry(1, 2, T.Mapping(TWO64 - 1, T.ReadWrite))]
  }

  lemma AliasedAddrs()
    ensures RM.Canonical(Aliased()) && T.Mapped(Aliased(), 0, 2) && T.Phys(Aliased(), 0, 2) == [0, 0]
  {
    var t := Aliased();
    forall a | 0 <= a < 2 ensures RM.At(t, a) == Some(t[a].value) { RM.AtInside(t, a, a); }
    assert T.Phys(t, 0, 2) == [0] + T.Phys(t, 1, 2);
    assert T.Phys(t, 1, 2) == [0] + T.Phys(t, 2, 2);
  }

  lemma BothMapped()
    ensures MappedPrefix([Region(0, 1)], [0, 0]) == 2
  {
    var rs := [Region(0, 1)];
    assert Contains(rs[0], 0);
    assert [0, 0][1..] == [0] && [0][1..] == [];
    assert MappedLen(rs, [0]) == 1 + MappedLen(rs, []);
  }

  /** Behind an IOMMU a range may address a byte twice; then the read returns what was written last. */
  lemma AliasedReadBack()
    ensures RM.Canonical(Aliased()) && T.Mapped(Aliased(), 0, 2)
    ensures var rs, addrs, data: seq<Byte> := [Region(0, 1)], T.Phys(Aliased(), 0, 2), [1, 2];
            && MappedPrefix(rs, addrs) == 2
            && ReadInto(rs, WriteFrom(rs, [[0]], addrs, data), addrs, data) != data
  {
    hide ReadInto, WriteFrom, MappedPrefix, MappedLen, Aliased, T.Phys, RM.Canonical;
    var rs, data: seq<Byte> := [Region(0, 1)], [1, 2];
    AliasedAddrs();
    BothMapped();
    var addrs := T.Phys(Aliased(), 0, 2);
    WriteThenRead(rs, [[0]], addrs, data, data);
    assert addrs[..2] == addrs && data[..2] == data && data + data[2..] == data;
    assert !Agrees(addrs, data) by { assert addrs[0] == addrs[1] && data[0] != data[1]; }
  }
}

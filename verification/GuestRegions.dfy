/**
Guest physical memory as a sorted collection of regions: building and changing it, and looking addresses up in it.
*/
module GuestRegions {
  import opened Basics

  datatype Region = Region(start: nat, len: nat)

  predicate ValidRegion(r: Region) {
    0 < r.len && r.start + r.len <= TWO64
  }

  function LastAddr(r: Region): nat
    requires ValidRegion(r)
  {
    r.start + (r.len - 1)
  }

  predicate Contains(r: Region, a: int) {
    r.start <= a < r.start + r.len
  }

  predicate ValidRegions(rs: seq<Region>) {
    forall i :: 0 <= i < |rs| ==> ValidRegion(rs[i])
  }

  /** A collection: strictly ordered regions, no two of which share an address. */
  ghost predicate Collection(rs: seq<Region>) {
    && ValidRegions(rs)
    && (forall i, j :: 0 <= i < j < |rs| ==> rs[i].start < rs[j].start)
    && (forall i, j :: 0 <= i < j < |rs| ==> !Overlap(rs[i], rs[j]))
  }

  ghost predicate Overlap(a: Region, b: Region) {
    exists x :: Contains(a, x) && Contains(b, x)
  }

  /** The same, without quantifying over addresses. */
  predicate Ordered(rs: seq<Region>) {
    && ValidRegions(rs)
    && (forall i, j :: 0 <= i < j < |rs| ==> rs[i].start + rs[i].len <= rs[j].start)
  }

  predicate Apart(a: Region, b: Region) {
    a.start + a.len <= b.start || b.start + b.len <= a.start
  }

  lemma OverlapIff(a: Region, b: Region)
    requires ValidRegion(a) && ValidRegion(b)
    ensures Overlap(a, b) <==> !Apart(a, b)
  {
    if !Apart(a, b) {
      var x := if a.start < b.start then b.start else a.start;
      assert Contains(a, x) && Contains(b, x);
    }
  }

  lemma CollectionIsOrdered(rs: seq<Region>)
    ensures Collection(rs) <==> Ordered(rs)
  {
    if ValidRegions(rs) {
      forall i, j | 0 <= i < j < |rs|
        ensures rs[i].start < rs[j].start && !Overlap(rs[i], rs[j]) <==> rs[i].start + rs[i].len <= rs[j].start
      {
        OverlapIff(rs[i], rs[j]);
      }
    }
  }

  // ----- Building collections -----

  datatype CollectionError = NoMemoryRegion | MemoryRegionOverlap | UnsortedMemoryRegions

  /** The verdict on one pair of neighbours. */
  function Window(prev: Region, next: Region): Option<CollectionError>
    requires ValidRegion(prev)
  {
    if prev.start > next.start then Some(UnsortedMemoryRegions)
    else if LastAddr(prev) >= next.start then Some(MemoryRegionOverlap)
    else None
  }

  /** The verdict on all neighbours: that of the first bad pair. */
  function Windows(rs: seq<Region>): Option<CollectionError>
    requires ValidRegions(rs)
  {
    if |rs| < 2 then None
    else if Window(rs[0], rs[1]).Some? then Window(rs[0], rs[1])
    else Windows(rs[1..])
  }

  function FromRegions(rs: seq<Region>): Result<seq<Region>, CollectionError>
    requires ValidRegions(rs)
  {
    if rs == [] then Err(NoMemoryRegion)
    else if Windows(rs).Some? then Err(Windows(rs).value)
    else Ok(rs)
  }

  /** Comparing neighbours only is enough. */
  lemma {:induction false} WindowsOrdered(rs: seq<Region>)
    requires ValidRegions(rs)
    ensures Windows(rs).None? <==> Ordered(rs)
  {
    if |rs| >= 2 {
      WindowsOrdered(rs[1..]);
      if Windows(rs).None? {
        forall i, j | 0 <= i < j < |rs| ensures rs[i].start + rs[i].len <= rs[j].start {
          if i == 0 && j > 1 { assert rs[1..][0].start + rs[1..][0].len <= rs[1..][j - 1].start; }
          if i > 0 { assert rs[1..][i - 1].start + rs[1..][i - 1].len <= rs[1..][j - 1].start; }
        }
      }
    }
  }

  /** `from_arc_regions` accepts exactly the non-empty collections, unchanged. */
  lemma FromRegionsExact(rs: seq<Region>)
    requires ValidRegions(rs)
    ensures FromRegions(rs).Ok? <==> rs != [] && Collection(rs)
    ensures FromRegions(rs).Ok? ==> FromRegions(rs).value == rs
    ensures FromRegions(rs) == Err(NoMemoryRegion) <==> rs == []
  {
    WindowsOrdered(rs);
    CollectionIsOrdered(rs);
    NoWindowSaysEmpty(rs);
  }

  lemma {:induction false} NoWindowSaysEmpty(rs: seq<Region>)
    requires ValidRegions(rs)
    ensures Windows(rs) != Some(NoMemoryRegion)
  {
    if |rs| >= 2 { NoWindowSaysEmpty(rs[1..]); }
  }

  method CheckRegions(rs: seq<Region>) returns (r: Result<seq<Region>, CollectionError>)
    requires ValidRegions(rs)
    ensures r == FromRegions(rs)
  {
    if rs == [] {
      return Err(NoMemoryRegion);
    }
    var i := 0;
    while i + 1 < |rs|
      invariant i < |rs| && Windows(rs) == Windows(rs[i..])
    {
      var prev, next := rs[i], rs[i + 1];
      assert rs[i..][1..] == rs[i + 1..];
      if prev.start > next.start {
        return Err(UnsortedMemoryRegions);
      }
      if LastAddr(prev) >= next.start {
        return Err(MemoryRegionOverlap);
      }
      i := i + 1;
    }
    r := Ok(rs);
  }

  /** The number of regions that start no later than `start`. */
  function Position(rs: seq<Region>, start: nat): (k: nat)
    requires Ordered(rs)
    ensures k <= |rs|
    ensures forall i :: 0 <= i < k ==> rs[i].start <= start
    ensures forall i :: k <= i < |rs| ==> start < rs[i].start
  {
    if rs == [] || rs[|rs| - 1].start <= start then |rs| else Position(rs[..|rs| - 1], start)
  }

  function Spliced(rs: seq<Region>, k: nat, r: Region): (s: seq<Region>)
    requires k <= |rs|
    ensures |s| == |rs| + 1 && s[k] == r
    ensures forall i :: 0 <= i < k ==> s[i] == rs[i]
    ensures forall i :: k < i < |s| ==> s[i] == rs[i - 1]
  {
    rs[..k] + [r] + rs[k..]
  }

  /** A stable sort by start address moves the region pushed last right behind those that start no later. */
  function InsertRegion(rs: seq<Region>, r: Region): Result<seq<Region>, CollectionError>
    requires Ordered(rs) && ValidRegion(r)
  {
    FromRegions(Spliced(rs, Position(rs, r.start), r))
  }

  /**
  Inserting succeeds exactly when the new region shares no address with an old one; the result is the old
  collection with the region at its place, and the only possible failure is an overlap.
  */
  lemma InsertExact(rs: seq<Region>, r: Region)
    requires Ordered(rs) && ValidRegion(r)
    ensures InsertRegion(rs, r).Ok? <==> forall i :: 0 <= i < |rs| ==> !Overlap(rs[i], r)
    ensures InsertRegion(rs, r).Ok? ==>
              && Ordered(InsertRegion(rs, r).value)
              && InsertRegion(rs, r).value == Spliced(rs, Position(rs, r.start), r)
    ensures InsertRegion(rs, r).Err? ==> InsertRegion(rs, r).error == MemoryRegionOverlap
  {
    hide Windows, Overlap, Apart, Position, Spliced;
    var k := Position(rs, r.start);
    var s := Spliced(rs, k, r);
    WindowsOrdered(s);
    SplicedStarts(rs, k, r);
    StartsSorted(s);
    NoWindowSaysEmpty(s);
    SplicedOrderedIff(rs, k, r);
    NoOverlapIff(rs, r);
  }

  lemma NoOverlapIff(rs: seq<Region>, r: Region)
    requires ValidRegions(rs) && ValidRegion(r)
    ensures (forall i :: 0 <= i < |rs| ==> !Overlap(rs[i], r)) <==> (forall i :: 0 <= i < |rs| ==> Apart(rs[i], r))
  {
    forall i | 0 <= i < |rs| ensures Overlap(rs[i], r) <==> !Apart(rs[i], r) {
      OverlapIff(rs[i], r);
    }
  }

  lemma SplicedOrderedIff(rs: seq<Region>, k: nat, r: Region)
    requires k <= |rs| && Ordered(rs) && ValidRegion(r)
    requires forall i :: 0 <= i < k ==> rs[i].start <= r.start
    requires forall i :: k <= i < |rs| ==> r.start < rs[i].start
    ensures Ordered(Spliced(rs, k, r)) <==> forall i :: 0 <= i < |rs| ==> Apart(rs[i], r)
  {
    if forall i :: 0 <= i < |rs| ==> Apart(rs[i], r) { SplicedOrdered(rs, k, r); }
    if Ordered(Spliced(rs, k, r)) { SplicedApart(rs, k, r); }
  }

  lemma SplicedApart(rs: seq<Region>, k: nat, r: Region)
    requires k <= |rs| && Ordered(Spliced(rs, k, r))
    ensures forall i :: 0 <= i < |rs| ==> Apart(rs[i], r)
  {
    var s := Spliced(rs, k, r);
    forall i | 0 <= i < |rs| ensures Apart(rs[i], r) {
      if i < k { assert s[i] == rs[i]; } else { assert s[i + 1] == rs[i]; }
    }
  }

  lemma SplicedOrdered(rs: seq<Region>, k: nat, r: Region)
    requires k <= |rs| && Ordered(rs) && ValidRegion(r) && forall i :: 0 <= i < |rs| ==> Apart(rs[i], r)
    requires forall i :: 0 <= i < k ==> rs[i].start <= r.start
    requires forall i :: k <= i < |rs| ==> r.start < rs[i].start
    ensures Ordered(Spliced(rs, k, r))
  {
    var s := Spliced(rs, k, r);
    forall i, j | 0 <= i < j < |s| ensures s[i].start + s[i].len <= s[j].start {
      if i == k { assert Apart(rs[j - 1], r); }
      if j == k { assert Apart(rs[i], r); }
    }
  }

  lemma SplicedStarts(rs: seq<Region>, k: nat, r: Region)
    requires k <= |rs| && Ordered(rs)
    requires forall i :: 0 <= i < k ==> rs[i].start <= r.start
    requires forall i :: k <= i < |rs| ==> r.start < rs[i].start
    ensures forall i, j :: 0 <= i < j <= |rs| ==> Spliced(rs, k, r)[i].start <= Spliced(rs, k, r)[j].start
  {
  }

  lemma {:induction false} StartsSorted(s: seq<Region>)
    requires ValidRegions(s) && forall i, j :: 0 <= i < j < |s| ==> s[i].start <= s[j].start
    ensures Windows(s) != Some(UnsortedMemoryRegions)
  {
    if |s| >= 2 { StartsSorted(s[1..]); }
  }

  // ----- Binary search -----

  datatype Search = Hit(index: nat) | Miss(insertAt: nat)

  /** binary_search_by_key on start addresses, over `rs[lo..hi]`. */
  function BinarySearch(rs: seq<Region>, a: nat, lo: nat, hi: nat): (r: Search)
    requires Ordered(rs) && lo <= hi <= |rs|
    requires forall i :: 0 <= i < lo ==> rs[i].start < a
    requires forall i :: hi <= i < |rs| ==> a < rs[i].start
    ensures match r
            case Hit(i) => i < |rs| && rs[i].start == a
            case Miss(i) => i <= |rs| && (forall j :: 0 <= j < i ==> rs[j].start < a)
                                      && (forall j :: i <= j < |rs| ==> a < rs[j].start)
    decreases hi - lo
  {
    if lo == hi then Miss(lo)
    else
      var mid := (lo + hi) / 2;
      if rs[mid].start == a then Hit(mid)
      else if rs[mid].start < a then BinarySearch(rs, a, mid + 1, hi)
      else BinarySearch(rs, a, lo, mid)
  }

  /** GuestRegionCollection::find_region, by index. */
  function FindRegion(rs: seq<Region>, a: nat): Option<nat>
    requires Ordered(rs)
  {
    match BinarySearch(rs, a, 0, |rs|)
    case Hit(i) => Some(i)
    case Miss(i) => if i > 0 && a <= LastAddr(rs[i - 1]) then Some(i - 1) else None
  }

  /** The default implementation: the first region that holds the address. */
  function FindLinear(rs: seq<Region>, a: nat, from: nat): Option<nat>
    requires ValidRegions(rs) && from <= |rs|
    decreases |rs| - from
  {
    if from == |rs| then None
    else if rs[from].start <= a && a <= LastAddr(rs[from]) then Some(from)
    else FindLinear(rs, a, from + 1)
  }

  ghost predicate Mapped(rs: seq<Region>, a: int) {
    exists i :: 0 <= i < |rs| && Contains(rs[i], a)
  }

  lemma FindRegionExact(rs: seq<Region>, a: nat)
    requires Ordered(rs)
    ensures FindRegion(rs, a).Some? <==> Mapped(rs, a)
    ensures FindRegion(rs, a).Some? ==>
              FindRegion(rs, a).value < |rs| && Contains(rs[FindRegion(rs, a).value], a)
  {
    if i :| 0 <= i < |rs| && Contains(rs[i], a) {
      var s := BinarySearch(rs, a, 0, |rs|);
      if s.Miss? {
        assert s.insertAt > i;
        if i < s.insertAt - 1 { assert rs[i].start + rs[i].len <= rs[s.insertAt - 1].start; }
      }
    }
  }

  lemma {:induction false} FindLinearExact(rs: seq<Region>, a: nat, from: nat)
    requires ValidRegions(rs) && from <= |rs| && forall i :: 0 <= i < from ==> !Contains(rs[i], a)
    ensures FindLinear(rs, a, from).None? ==> !Mapped(rs, a)
    ensures FindLinear(rs, a, from).Some? ==>
              FindLinear(rs, a, from).value < |rs| && Contains(rs[FindLinear(rs, a, from).value], a)
    decreases |rs| - from
  {
    if from < |rs| && !Contains(rs[from], a) { FindLinearExact(rs, a, from + 1); }
  }

  /** On every collection the binary search finds what the linear search finds. */
  lemma FindersAgree(rs: seq<Region>, a: nat)
    requires Ordered(rs)
    ensures FindRegion(rs, a) == FindLinear(rs, a, 0)
  {
    FindRegionExact(rs, a);
    FindLinearExact(rs, a, 0);
    var x, y := FindRegion(rs, a), FindLinear(rs, a, 0);
    if x.Some? && y.Some? { UniqueOwner(rs, x.value, y.value, a); }
  }

  lemma UniqueOwner(rs: seq<Region>, i: nat, j: nat, a: nat)
    requires Ordered(rs) && i < |rs| && j < |rs| && Contains(rs[i], a) && Contains(rs[j], a)
    ensures i == j
  {
  }

  // ----- Removing -----

  function RemoveRegion(rs: seq<Region>, base: nat, size: nat): Result<(seq<Region>, Region), CollectionError>
    requires Ordered(rs)
  {
    match BinarySearch(rs, base, 0, |rs|)
    case Hit(i) => if rs[i].len == size then Ok((rs[..i] + rs[i + 1..], rs[i])) else Err(NoMemoryRegion)
    case Miss(_) => Err(NoMemoryRegion)
  }

  lemma RemoveAt(rs: seq<Region>, i: nat)
    requires Ordered(rs) && i < |rs|
    ensures RemoveRegion(rs, rs[i].start, rs[i].len) == Ok((rs[..i] + rs[i + 1..], rs[i]))
  {
    var s := BinarySearch(rs, rs[i].start, 0, |rs|);
    if s.Hit? { UniqueOwner(rs, s.index, i, rs[i].start); }
  }

  /** Removing succeeds exactly for a region of the collection, and gives a collection back. */
  lemma RemoveExact(rs: seq<Region>, base: nat, size: nat)
    requires Ordered(rs)
    ensures RemoveRegion(rs, base, size).Ok? <==> Region(base, size) in rs
    ensures RemoveRegion(rs, base, size).Ok? ==>
              && Ordered(RemoveRegion(rs, base, size).value.0)
              && RemoveRegion(rs, base, size).value.1 == Region(base, size)
  {
    if Region(base, size) in rs {
      var i :| 0 <= i < |rs| && rs[i] == Region(base, size);
      RemoveAt(rs, i);
    }
  }

  lemma RemoveUndoesInsert(rs: seq<Region>, r: Region)
    requires Ordered(rs) && ValidRegion(r) && InsertRegion(rs, r).Ok?
    ensures Ordered(InsertRegion(rs, r).value)
    ensures RemoveRegion(InsertRegion(rs, r).value, r.start, r.len) == Ok((rs, r))
  {
    InsertExact(rs, r);
    var k := Position(rs, r.start);
    var s := InsertRegion(rs, r).value;
    RemoveAt(s, k);
    SplicedOut(rs, k, r);
  }

  lemma SplicedOut(rs: seq<Region>, k: nat, r: Region)
    requires k <= |rs|
    ensures Spliced(rs, k, r)[..k] + Spliced(rs, k, r)[k + 1..] == rs
  {
  }

  lemma InsertUndoesRemove(rs: seq<Region>, i: nat)
    requires Ordered(rs) && i < |rs|
    ensures Ordered(rs[..i] + rs[i + 1..])
    ensures RemoveRegion(rs, rs[i].start, rs[i].len) == Ok((rs[..i] + rs[i + 1..], rs[i]))
    ensures InsertRegion(rs[..i] + rs[i + 1..], rs[i]) == Ok(rs)
  {
    hide Position, Spliced, Windows;
    RemoveAt(rs, i);
    PositionWithout(rs, i);
    SplicedBack(rs, i);
    WindowsOrdered(rs);
  }

  lemma SplicedBack(rs: seq<Region>, i: nat)
    requires i < |rs|
    ensures Spliced(rs[..i] + rs[i + 1..], i, rs[i]) == rs
  {
  }

  lemma PositionWithout(rs: seq<Region>, i: nat)
    requires Ordered(rs) && i < |rs|
    ensures Ordered(rs[..i] + rs[i + 1..]) && Position(rs[..i] + rs[i + 1..], rs[i].start) == i
  {
    var rest := rs[..i] + rs[i + 1..];
    var k := Position(rest, rs[i].start);
    assert i > 0 ==> rest[i - 1] == rs[i - 1];
    assert i < |rest| ==> rest[i] == rs[i + 1];
  }
}

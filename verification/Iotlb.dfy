/**
The IOTLB: a coalescing range map from I/O virtual addresses (IOVAs) to the wrapping difference between
the mapped address and the IOVA, with permissions.  Its meaning is a plain per-address table.
*/
module Iotlbs {
  import opened Basics
  import opened RangeMaps

  // ----- Permissions -----

  datatype Permissions = No | Read | Write | ReadWrite

  function Repr(p: Permissions): bv8 {
    match p
    case No => 0
    case Read => 1
    case Write => 2
    case ReadWrite => 3
  }

  function FromRepr(raw: bv8): Permissions
    requires raw <= 3
  {
    if raw == 0 then No else if raw == 1 then Read else if raw == 2 then Write else ReadWrite
  }

  function BitAnd(p: Permissions, q: Permissions): Permissions {
    FromRepr(Repr(p) & Repr(q))
  }

  predicate Allow(p: Permissions, access: Permissions) {
    BitAnd(p, access) == access
  }

  predicate CanRead(p: Permissions) { p == Read || p == ReadWrite }
  predicate CanWrite(p: Permissions) { p == Write || p == ReadWrite }

  /** An access is allowed exactly when each right it asks for is granted. */
  lemma AllowMeaning(p: Permissions, access: Permissions)
    ensures Allow(p, access) <==> (CanRead(access) ==> CanRead(p)) && (CanWrite(access) ==> CanWrite(p))
  {
    match p {
      case No =>
      case Read =>
      case Write =>
      case ReadWrite =>
    }
  }

  // ----- Mappings -----

  datatype Mapping = Mapping(diff: nat, perm: Permissions)

  type Tlb = seq<Entry<Mapping>>

  function NewMapping(source: nat, target: nat, perm: Permissions): Mapping {
    Mapping((target - source) % TWO64, perm)
  }

  function MapAddr(m: Mapping, iova: nat): nat {
    (iova + m.diff) % TWO64
  }

  lemma ModAdd(a: int, b: int)
    ensures (a + b % TWO64) % TWO64 == (a + b) % TWO64
  {
    var q := b / TWO64;
    assert a + b == (a + b % TWO64) + TWO64 * q;
  }

  /** Storing the difference keeps every address of a mapping at its distance from the base. */
  lemma MapAddrShift(source: nat, target: nat, perm: Permissions, k: nat)
    ensures MapAddr(NewMapping(source, target, perm), source + k) == (target + k) % TWO64
  {
    ModAdd(source + k, target - source);
  }

  /** The table entry of an address: where it points and what it permits. */
  function Translate(t: Tlb, a: nat): Option<(nat, Permissions)> {
    match At(t, a)
    case None => None
    case Some(m) => Some((MapAddr(m, a), m.perm))
  }

  // ----- Updates -----

  datatype Update =
    | SetMapping(iova: nat, mapTo: nat, length: nat, perm: Permissions)
    | InvalidateMapping(iova: nat, length: nat)
    | InvalidateAll

  predicate ValidRange(iova: nat, length: nat) {
    0 < length && iova + length < TWO64
  }

  predicate ValidUpdate(u: Update) {
    match u
    case SetMapping(iova, mapTo, length, _) => ValidRange(iova, length) && mapTo < TWO64
    case InvalidateMapping(iova, length) => ValidRange(iova, length)
    case InvalidateAll => true
  }

  function Updated(t: Tlb, u: Update): Tlb {
    match u
    case SetMapping(iova, mapTo, length, perm) => Insert(t, iova, iova + length, NewMapping(iova, mapTo, perm))
    case InvalidateMapping(iova, length) => Remove(t, iova, iova + length)
    case InvalidateAll => []
  }

  /** The reference: one entry per address, updated byte by byte. */
  type PlainTable = map<nat, (nat, Permissions)>

  function PlainSet(p: PlainTable, iova: nat, mapTo: nat, length: nat, perm: Permissions): PlainTable {
    if length == 0 then p
    else PlainSet(p, iova, mapTo, length - 1, perm)[iova + length - 1 := ((mapTo + length - 1) % TWO64, perm)]
  }

  function PlainRemove(p: PlainTable, iova: nat, length: nat): PlainTable {
    if length == 0 then p else PlainRemove(p, iova, length - 1) - {iova + length - 1}
  }

  function PlainUpdated(p: PlainTable, u: Update): PlainTable {
    match u
    case SetMapping(iova, mapTo, length, perm) => PlainSet(p, iova, mapTo, length, perm)
    case InvalidateMapping(iova, length) => PlainRemove(p, iova, length)
    case InvalidateAll => map[]
  }

  predicate AgreesAt(t: Tlb, p: PlainTable, a: nat) {
    Translate(t, a) == if a in p then Some(p[a]) else None
  }

  ghost predicate Agrees(t: Tlb, p: PlainTable) {
    forall a: nat :: AgreesAt(t, p, a)
  }

  lemma {:induction false} PlainSetMeaning(p: PlainTable, iova: nat, mapTo: nat, length: nat, perm: Permissions, a: nat)
    ensures var q := PlainSet(p, iova, mapTo, length, perm);
            if iova <= a < iova + length then a in q && q[a] == ((mapTo + (a - iova)) % TWO64, perm)
            else (a in q <==> a in p) && (a in p ==> q[a] == p[a])
  {
    if length > 0 { PlainSetMeaning(p, iova, mapTo, length - 1, perm, a); }
  }

  lemma {:induction false} PlainRemoveMeaning(p: PlainTable, iova: nat, length: nat, a: nat)
    ensures var q := PlainRemove(p, iova, length);
            (a in q <==> a in p && !(iova <= a < iova + length)) && (a in q ==> q[a] == p[a])
  {
    if length > 0 { PlainRemoveMeaning(p, iova, length - 1, a); }
  }

  lemma SetAgrees(t: Tlb, t': Tlb, p: PlainTable, iova: nat, mapTo: nat, length: nat, perm: Permissions, a: nat)
    requires AgreesAt(t, p, a)
    requires At(t', a) == if iova <= a < iova + length then Some(NewMapping(iova, mapTo, perm)) else At(t, a)
    ensures AgreesAt(t', PlainSet(p, iova, mapTo, length, perm), a)
  {
    PlainSetMeaning(p, iova, mapTo, length, perm, a);
    if iova <= a < iova + length { MapAddrShift(iova, mapTo, perm, a - iova); }
  }

  lemma UpdateAgrees(t: Tlb, p: PlainTable, u: Update)
    requires Canonical(t) && ValidUpdate(u) && Agrees(t, p)
    ensures Canonical(Updated(t, u)) && Agrees(Updated(t, u), PlainUpdated(p, u))
  {
    hide Canonical, Insert, Remove, At;
    match u {
      case SetMapping(iova, mapTo, length, perm) =>
        InsertMeaning(t, iova, iova + length, NewMapping(iova, mapTo, perm));
        forall a: nat ensures AgreesAt(Updated(t, u), PlainUpdated(p, u), a) {
          SetAgrees(t, Updated(t, u), p, iova, mapTo, length, perm, a);
        }
      case InvalidateMapping(iova, length) =>
        RemoveMeaning(t, iova, iova + length);
        forall a: nat ensures AgreesAt(Updated(t, u), PlainUpdated(p, u), a) {
          assert AgreesAt(t, p, a);
          PlainRemoveMeaning(p, iova, length, a);
        }
      case InvalidateAll =>
        EmptyTables();
    }
  }

  lemma EmptyTables()
    ensures Canonical<Mapping>([]) && Agrees([], map[])
  {
  }

  function AllUpdated(us: seq<Update>): Tlb {
    if us == [] then [] else Updated(AllUpdated(us[..|us| - 1]), us[|us| - 1])
  }

  function AllPlainUpdated(us: seq<Update>): PlainTable {
    if us == [] then map[] else PlainUpdated(AllPlainUpdated(us[..|us| - 1]), us[|us| - 1])
  }

  /** After every sequence of updates the coalescing table is canonical and means the plain table. */
  lemma {:induction false} UpdatesAgree(us: seq<Update>)
    requires forall i :: 0 <= i < |us| ==> ValidUpdate(us[i])
    ensures Canonical(AllUpdated(us)) && Agrees(AllUpdated(us), AllPlainUpdated(us))
  {
    if us != [] {
      UpdatesAgree(us[..|us| - 1]);
      UpdateAgrees(AllUpdated(us[..|us| - 1]), AllPlainUpdated(us[..|us| - 1]), us[|us| - 1]);
    }
  }

  // ----- Lookup -----

  datatype Fails = Fails(misses: seq<Span>, accessFails: seq<Span>)

  datatype LookupResult = Found | Failed(fails: Fails)

  function Forbidden(es: Tlb, lo: nat, hi: nat, access: Permissions): seq<Span> {
    if es == [] then []
    else
      (if Allow(es[0].value.perm, access) then [] else [Span(Max(es[0].start, lo), Min(es[0].end, hi))])
      + Forbidden(es[1..], lo, hi, access)
  }

  predicate AnyForbidden(es: Tlb, access: Permissions) {
    es != [] && (!Allow(es[0].value.perm, access) || AnyForbidden(es[1..], access))
  }

  function Lookup(t: Tlb, iova: nat, length: nat, access: Permissions): LookupResult {
    var lo, hi := iova, iova + length;
    var hasMisses := Gaps(t, lo, hi) != [];
    var hasAccessFails := AnyForbidden(Overlapping(t, lo, hi), access);
    if hasMisses || hasAccessFails then
      Failed(Fails(Gaps(t, lo, hi), Forbidden(Overlapping(t, lo, hi), lo, hi, access)))
    else Found
  }

  predicate Accessible(t: Tlb, a: nat, access: Permissions) {
    At(t, a).Some? && Allow(At(t, a).value.perm, access)
  }

  ghost predicate AllAccessible(t: Tlb, start: nat, end: nat, access: Permissions) {
    forall a :: start <= a < end ==> Accessible(t, a, access)
  }

  /** Non-empty, disjoint spans within bounds, in order. */
  ghost predicate Disjoint(spans: seq<Span>, lo: nat, hi: nat) {
    && (forall i :: 0 <= i < |spans| ==> lo <= spans[i].start < spans[i].end <= hi)
    && (forall i, j :: 0 <= i < j < |spans| ==> spans[i].end <= spans[j].start)
  }

  lemma {:induction false} ForbiddenDisjoint(es: Tlb, lo: nat, hi: nat, access: Permissions)
    requires Sorted(es) && lo < hi && forall i :: 0 <= i < |es| ==> es[i].start < hi && lo < es[i].end
    ensures Disjoint(Forbidden(es, lo, hi, access), lo, hi)
    ensures forall i :: 0 <= i < |Forbidden(es, lo, hi, access)| ==>
              es != [] && es[0].start <= Forbidden(es, lo, hi, access)[i].start
  {
    if es != [] {
      ForbiddenDisjoint(es[1..], lo, hi, access);
      var rest := Forbidden(es[1..], lo, hi, access);
      if Allow(es[0].value.perm, access) {
        assert Forbidden(es, lo, hi, access) == rest;
      } else {
        DisjointCons(Span(Max(es[0].start, lo), Min(es[0].end, hi)), rest, lo, hi);
      }
    }
  }

  lemma DisjointCons(s: Span, rest: seq<Span>, lo: nat, hi: nat)
    requires Disjoint(rest, lo, hi) && lo <= s.start < s.end <= hi
    requires forall i :: 0 <= i < |rest| ==> s.end <= rest[i].start
    ensures Disjoint([s] + rest, lo, hi)
  {
  }

  lemma {:induction false} AnyForbiddenFound(es: Tlb, lo: nat, hi: nat, access: Permissions)
    ensures AnyForbidden(es, access) <==> Forbidden(es, lo, hi, access) != []
  {
    if es != [] { AnyForbiddenFound(es[1..], lo, hi, access); }
  }

  lemma {:induction false} ForbiddenCovers(es: Tlb, lo: nat, hi: nat, access: Permissions, a: nat)
    requires Sorted(es) && lo <= a < hi
    ensures Covers(Forbidden(es, lo, hi, access), a) <==> At(es, a).Some? && !Allow(At(es, a).value.perm, access)
  {
    if es != [] {
      ForbiddenCovers(es[1..], lo, hi, access, a);
      if At(es[1..], a).Some? { var i := AtFound(es[1..], a); }
      if !Allow(es[0].value.perm, access) {
        CoversCons(Span(Max(es[0].start, lo), Min(es[0].end, hi)), Forbidden(es[1..], lo, hi, access), a);
      } else {
        assert Forbidden(es, lo, hi, access) == Forbidden(es[1..], lo, hi, access);
      }
    }
  }

  /** The misses reported for a request: exactly its unmapped addresses, as maximal ranges. */
  ghost predicate ExactMisses(t: Tlb, lo: nat, hi: nat, misses: seq<Span>) {
    && Separated(misses, lo, hi)
    && (forall a :: Covers(misses, a) <==> lo <= a < hi && At(t, a).None?)
  }

  /** The access failures: exactly the addresses mapped without the permission asked for. */
  ghost predicate ExactAccessFails(t: Tlb, lo: nat, hi: nat, access: Permissions, spans: seq<Span>) {
    && Disjoint(spans, lo, hi)
    && (forall a :: lo <= a < hi ==> (Covers(spans, a) <==> At(t, a).Some? && !Accessible(t, a, access)))
  }

  ghost predicate ExactFails(t: Tlb, lo: nat, hi: nat, access: Permissions, fails: Fails) {
    ExactMisses(t, lo, hi, fails.misses) && ExactAccessFails(t, lo, hi, access, fails.accessFails)
  }

  /**
  A lookup succeeds exactly when every address of the range is mapped with sufficient permission.  If it
  fails, the misses are exactly the maximal unmapped subranges and the access failures exactly the addresses
  mapped without the permission asked for, both in order, disjoint and clipped to the request.
  */
  lemma LookupExact(t: Tlb, iova: nat, length: nat, access: Permissions)
    requires Canonical(t) && ValidRange(iova, length)
    ensures Lookup(t, iova, length, access).Found? <==> AllAccessible(t, iova, iova + length, access)
    ensures Lookup(t, iova, length, access).Failed? ==>
              ExactFails(t, iova, iova + length, access, Lookup(t, iova, length, access).fails)
  {
    hide Gaps, Overlapping, Forbidden, AnyForbidden, Covers, At, Separated, Disjoint, Accessible;
    var lo, hi := iova, iova + length;
    GapsMeaning(t, lo, hi);
    AccessFailsExact(t, lo, hi, access);
    AnyForbiddenFound(Overlapping(t, lo, hi), lo, hi, access);
    FoundExactly(t, lo, hi, access, Gaps(t, lo, hi), Forbidden(Overlapping(t, lo, hi), lo, hi, access));
  }

  lemma AccessFailsExact(t: Tlb, lo: nat, hi: nat, access: Permissions)
    requires Sorted(t) && lo < hi
    ensures ExactAccessFails(t, lo, hi, access, Forbidden(Overlapping(t, lo, hi), lo, hi, access))
  {
    var es := Overlapping(t, lo, hi);
    OverlappingSorted(t, lo, hi);
    ForbiddenDisjoint(es, lo, hi, access);
    forall a | lo <= a < hi
      ensures Covers(Forbidden(es, lo, hi, access), a) <==> At(t, a).Some? && !Accessible(t, a, access)
    {
      OverlappingAt(t, lo, hi, a);
      ForbiddenCovers(es, lo, hi, access, a);
    }
  }

  lemma FoundExactly(t: Tlb, lo: nat, hi: nat, access: Permissions, misses: seq<Span>, accessFails: seq<Span>)
    requires ExactMisses(t, lo, hi, misses) && ExactAccessFails(t, lo, hi, access, accessFails)
    ensures misses == [] && accessFails == [] <==> AllAccessible(t, lo, hi, access)
  {
    NothingCovered(misses, lo, hi);
    NothingCovered(accessFails, lo, hi);
    if misses == [] && accessFails == [] {
      forall a | lo <= a < hi ensures Accessible(t, a, access) {
        assert !Covers(misses, a) && !Covers(accessFails, a);
      }
    } else if AllAccessible(t, lo, hi, access) {
      forall a: nat | lo <= a < hi ensures !Covers(misses, a) && !Covers(accessFails, a) {
        assert Accessible(t, a, access);
      }
    }
  }

  lemma NothingCovered(spans: seq<Span>, lo: nat, hi: nat)
    requires forall i :: 0 <= i < |spans| ==> lo <= spans[i].start < spans[i].end <= hi
    ensures spans == [] <==> forall a: nat :: lo <= a < hi ==> !Covers(spans, a)
  {
    if spans != [] { assert Covers(spans, spans[0].start); }
  }

  // ----- Iterating over a translation -----

  /** A range of the underlying address space, and the IOVA it was translated from. */
  datatype Chunk = Chunk(iova: nat, base: nat, length: nat)

  /** get_key_value: the entry that holds an address. */
  function Find(t: Tlb, a: nat): (r: Option<Entry<Mapping>>)
    ensures r.Some? <==> At(t, a).Some?
    ensures r.Some? ==> r.value in t && r.value.start <= a < r.value.end && At(t, a) == Some(r.value.value)
  {
    if t == [] then None
    else if t[0].start <= a < t[0].end then Some(t[0])
    else Find(t[1..], a)
  }

  ghost predicate Mapped(t: Tlb, start: nat, end: nat) {
    forall a :: start <= a < end ==> At(t, a).Some?
  }

  function NextChunk(t: Tlb, start: nat, end: nat): Chunk
    requires start < end && At(t, start).Some?
  {
    var e := Find(t, start).value;
    Chunk(start, MapAddr(e.value, start), Min(end, e.end) - start)
  }

  /** Everything the iterator yields from `start` on. */
  function Chunks(t: Tlb, start: nat, end: nat): (cs: seq<Chunk>)
    requires Mapped(t, start, end)
    decreases end - start
  {
    if end <= start then []
    else
      var c := NextChunk(t, start, end);
      [c] + Chunks(t, start + c.length, end)
  }

  function ChunkAddrs(c: Chunk): seq<nat> {
    seq(c.length, k requires 0 <= k => (c.base + k) % TWO64)
  }

  function FlatAddrs(cs: seq<Chunk>): seq<nat> {
    if cs == [] then [] else ChunkAddrs(cs[0]) + FlatAddrs(cs[1..])
  }

  /** The translated addresses of a mapped range, one per byte. */
  function Phys(t: Tlb, start: nat, end: nat): (r: seq<nat>)
    requires Mapped(t, start, end)
    ensures |r| == if start <= end then end - start else 0
    decreases end - start
  {
    if end <= start then [] else [MapAddr(At(t, start).value, start)] + Phys(t, start + 1, end)
  }

  lemma ChunkInEntry(t: Tlb, start: nat, end: nat, k: nat)
    requires Sorted(t) && start < end && At(t, start).Some? && k < NextChunk(t, start, end).length
    ensures At(t, start + k).Some?
    ensures MapAddr(At(t, start + k).value, start + k) == (NextChunk(t, start, end).base + k) % TWO64
  {
    var e := Find(t, start).value;
    var i :| 0 <= i < |t| && t[i] == e;
    AtInside(t, i, start + k);
    ModAdd(k, start + e.value.diff);
  }

  lemma {:induction false} PhysAt(t: Tlb, start: nat, end: nat, k: nat)
    requires Mapped(t, start, end) && start + k < end
    ensures Phys(t, start, end)[k] == MapAddr(At(t, start + k).value, start + k)
    decreases k
  {
    if k > 0 { PhysAt(t, start + 1, end, k - 1); }
  }

  /** Non-empty chunks that follow each other without a gap from `start` to `end`. */
  ghost predicate Tiles(cs: seq<Chunk>, start: nat, end: nat) {
    if cs == [] then start == end
    else cs[0].iova == start && 0 < cs[0].length && Tiles(cs[1..], start + cs[0].length, end)
  }

  /** On a range that was looked up successfully the chunks tile the request. */
  lemma {:induction false} ChunksTile(t: Tlb, start: nat, end: nat)
    requires start <= end && Mapped(t, start, end)
    ensures Tiles(Chunks(t, start, end), start, end)
    decreases end - start
  {
    hide At, Find;
    if start < end {
      var c := NextChunk(t, start, end);
      ChunksTile(t, start + c.length, end);
      assert Chunks(t, start, end)[1..] == Chunks(t, start + c.length, end);
    }
  }

  /** A chunk ends only where the request does or the mapping changes. */
  lemma ChunkMaximal(t: Tlb, start: nat, end: nat)
    requires Canonical(t) && start < end && At(t, start).Some?
    ensures var c := NextChunk(t, start, end);
            c.iova == start && (start + c.length == end || At(t, start + c.length) != At(t, start))
  {
    hide At, Canonical;
    var e := Find(t, start).value;
    if e.end < end && At(t, e.end) == At(t, start) {
      var j := AtFound(t, e.end);
      var i :| 0 <= i < |t| && t[i] == e;
      Neighbours(t, i, j);
    }
  }

  lemma Neighbours(t: Tlb, i: nat, j: nat)
    requires Canonical(t) && i < |t| && j < |t| && t[j].start <= t[i].end < t[j].end
    ensures t[j].value != t[i].value
  {
    assert i < j && !Mergeable(t[i], t[i + 1]);
  }

  predicate Differ(t: Tlb, c: Chunk, d: Chunk) {
    At(t, c.iova) != At(t, d.iova)
  }

  ghost predicate NeighboursDiffer(t: Tlb, cs: seq<Chunk>) {
    forall i :: 0 < i < |cs| ==> Differ(t, cs[i - 1], cs[i])
  }

  /** So the iterator yields as few chunks as possible: the mappings of neighbours differ. */
  lemma {:induction false} ChunksMaximal(t: Tlb, start: nat, end: nat)
    requires Canonical(t) && start <= end && Mapped(t, start, end)
    ensures NeighboursDiffer(t, Chunks(t, start, end))
    decreases end - start
  {
    hide At, Find, Canonical;
    if start < end {
      var c := NextChunk(t, start, end);
      ChunkMaximal(t, start, end);
      ChunksMaximal(t, start + c.length, end);
      var cs, rest := Chunks(t, start, end), Chunks(t, start + c.length, end);
      assert rest != [] ==> start + c.length < end && rest[0].iova == start + c.length;
      assert cs == [c] + rest;
      forall i | 0 < i < |cs| ensures Differ(t, cs[i - 1], cs[i]) {
        if i > 1 { assert Differ(t, rest[i - 2], rest[i - 1]); }
      }
    }
  }

  /** They list exactly the translated addresses, in order. */
  lemma {:induction false} ChunksTranslate(t: Tlb, start: nat, end: nat)
    requires Sorted(t) && start <= end && Mapped(t, start, end)
    ensures FlatAddrs(Chunks(t, start, end)) == Phys(t, start, end)
    decreases end - start
  {
    hide At, Find, Phys, Sorted;
    if start < end {
      var c := NextChunk(t, start, end);
      ChunksTranslate(t, start + c.length, end);
      assert Chunks(t, start, end)[1..] == Chunks(t, start + c.length, end);
      FlatStep(t, start, end);
    }
  }

  lemma FlatStep(t: Tlb, start: nat, end: nat)
    requires Sorted(t) && start < end && Mapped(t, start, end)
    ensures var c := NextChunk(t, start, end);
            Phys(t, start, end) == ChunkAddrs(c) + Phys(t, start + c.length, end)
  {
    var c := NextChunk(t, start, end);
    var next := start + c.length;
    forall k | 0 <= k < end - start ensures Phys(t, start, end)[k] == (ChunkAddrs(c) + Phys(t, next, end))[k] {
      PhysAt(t, start, end, k);
      if k < c.length { ChunkInEntry(t, start, end, k); } else { PhysAt(t, next, end, k - c.length); }
    }
  }

  // ----- The objects -----

  /** `plain` is the per-address table that the updates so far amount to. */
  class Iotlb {
    var tlb: Tlb
    ghost var plain: PlainTable

    ghost predicate Valid()
      reads this
    {
      Canonical(tlb) && Agrees(tlb, plain)
    }

    constructor ()
      ensures Valid() && plain == map[]
    {
      tlb, plain := [], map[];
    }

    method Set(iova: nat, mapTo: nat, length: nat, perm: Permissions)
      requires Valid() && ValidUpdate(SetMapping(iova, mapTo, length, perm))
      modifies this
      ensures Valid() && plain == PlainUpdated(old(plain), SetMapping(iova, mapTo, length, perm))
    {
      hide Canonical, Agrees, PlainUpdated;
      ghost var u := SetMapping(iova, mapTo, length, perm);
      UpdateAgrees(tlb, plain, u);
      var mapping := NewMapping(iova, mapTo, perm);
      tlb := Insert(tlb, iova, iova + length, mapping);
      plain := PlainUpdated(plain, u);
    }

    method Invalidate(iova: nat, length: nat)
      requires Valid() && ValidRange(iova, length)
      modifies this
      ensures Valid() && plain == PlainUpdated(old(plain), InvalidateMapping(iova, length))
    {
      hide Canonical, Agrees, PlainUpdated;
      UpdateAgrees(tlb, plain, InvalidateMapping(iova, length));
      tlb := Remove(tlb, iova, iova + length);
      plain := PlainUpdated(plain, InvalidateMapping(iova, length));
    }

    method Clear()
      modifies this
      ensures Valid() && plain == map[]
    {
      EmptyTables();
      tlb, plain := [], map[];
    }

    /** What the table says of one address is what the updates said last. */
    lemma TranslatesAs(a: nat)
      requires Valid()
      ensures Translate(tlb, a) == if a in plain then Some(plain[a]) else None
    {
      assert AgreesAt(tlb, plain, a);
    }

    /**
    Of a range, a lookup finds exactly what the updates left mapped with sufficient permission; what it reports as
    missing or forbidden is exactly what they left unmapped or mapped without it.
    */
    lemma LooksUpUpdates(iova: nat, length: nat, access: Permissions)
      requires Valid() && ValidRange(iova, length)
      ensures Lookup(tlb, iova, length, access).Found? <==>
              forall a: nat :: iova <= a < iova + length ==> a in plain && Allow(plain[a].1, access)
      ensures Lookup(tlb, iova, length, access).Failed? ==>
                var fails := Lookup(tlb, iova, length, access).fails;
                forall a: nat :: iova <= a < iova + length ==>
                  && (Covers(fails.misses, a) <==> a !in plain)
                  && (Covers(fails.accessFails, a) <==> a in plain && !Allow(plain[a].1, access))
    {
      hide Canonical, Agrees, Lookup, At, Covers, Allow;
      LookupExact(tlb, iova, length, access);
      forall a: nat | iova <= a < iova + length
        ensures At(tlb, a).Some? <==> a in plain
        ensures Accessible(tlb, a, access) <==> a in plain && Allow(plain[a].1, access)
      {
        TranslatesAs(a);
      }
    }
  }

  /** IotlbIterator: holds on to the table it was made from. */
  class IotlbIterator {
    const tlb: Tlb
    const access: Permissions
    const end: nat
    var start: nat

    ghost predicate Valid()
      reads this
    {
      Sorted(tlb) && start <= end && AllAccessible(tlb, start, end, access) && Mapped(tlb, start, end)
    }

    constructor (t: Tlb, iova: nat, length: nat, access: Permissions)
      requires Canonical(t) && ValidRange(iova, length) && Lookup(t, iova, length, access).Found?
      ensures Valid() && tlb == t && start == iova && end == iova + length && this.access == access
    {
      LookupExact(t, iova, length, access);
      forall a | iova <= a < iova + length ensures At(t, a).Some? { assert Accessible(t, a, access); }
      tlb, this.access, start, end := t, access, iova, iova + length;
    }

    /** The unwrap of the entry and the assertion on its permissions never fail. */
    method Next() returns (r: Option<Chunk>)
      requires Valid()
      modifies this
      ensures Valid()
      ensures r.None? <==> old(start) == end
      ensures r.None? ==> start == old(start)
      ensures r.Some? ==>
                && old(start) < start && Mapped(tlb, old(start), end)
                && Chunks(tlb, old(start), end) == [r.value] + Chunks(tlb, start, end)
    {
      if start == end {
        return None;
      }
      assert Accessible(tlb, start, access);
      var e := Find(tlb, start).value;
      assert Allow(e.value.perm, access);
      var mappingEnd := Min(end, e.end);
      r := Some(Chunk(start, MapAddr(e.value, start), mappingEnd - start));
      start := mappingEnd;
    }
  }
}

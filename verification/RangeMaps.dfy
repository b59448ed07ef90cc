/**
A coalescing range map: a sorted sequence of non-empty, disjoint ranges in which no two touching
ranges carry the same value.  `At` gives its meaning, address by address; the operations are proved
against that meaning, and `CanonicalUnique` shows the representation leaves no freedom: any algorithm
that keeps the invariant and has the same meaning produces the very same table.
*/
module RangeMaps {
  import opened Basics

  datatype Entry<V> = Entry(start: nat, end: nat, value: V)

  /** A half-open range of addresses. */
  datatype Span = Span(start: nat, end: nat)

  ghost predicate Sorted<V>(m: seq<Entry<V>>) {
    && (forall i :: 0 <= i < |m| ==> m[i].start < m[i].end)
    && (forall i, j :: 0 <= i < j < |m| ==> m[i].end <= m[j].start)
  }

  predicate Mergeable<V(==)>(a: Entry<V>, b: Entry<V>) {
    a.end == b.start && a.value == b.value
  }

  ghost predicate Canonical<V>(m: seq<Entry<V>>) {
    && Sorted(m)
    && (forall i :: 0 <= i < |m| - 1 ==> !Mergeable(m[i], m[i + 1]))
  }

  /** The value the map gives to an address. */
  function At<V>(m: seq<Entry<V>>, a: int): Option<V> {
    if m == [] then None
    else if m[0].start <= a < m[0].end then Some(m[0].value)
    else At(m[1..], a)
  }

  // ----- Meaning of sequences of entries -----

  lemma {:induction false} AtInside<V>(m: seq<Entry<V>>, i: nat, a: int)
    requires Sorted(m) && i < |m| && m[i].start <= a < m[i].end
    ensures At(m, a) == Some(m[i].value)
  {
    if i > 0 { AtInside(m[1..], i - 1, a); }
  }

  lemma {:induction false} AtFound<V>(m: seq<Entry<V>>, a: int) returns (i: nat)
    requires At(m, a).Some?
    ensures i < |m| && m[i].start <= a < m[i].end && At(m, a) == Some(m[i].value)
  {
    if m[0].start <= a < m[0].end {
      i := 0;
    } else {
      i := AtFound(m[1..], a);
      i := i + 1;
    }
  }

  lemma {:induction false} AtConcat<V>(m: seq<Entry<V>>, n: seq<Entry<V>>, a: int)
    ensures At(m + n, a) == if At(m, a).Some? then At(m, a) else At(n, a)
  {
    if m == [] {
      assert m + n == n;
    } else {
      assert (m + n)[1..] == m[1..] + n;
      AtConcat(m[1..], n, a);
    }
  }

  /** Two canonical maps with the same meaning are the same map. */
  lemma {:induction false} CanonicalUnique<V>(m: seq<Entry<V>>, n: seq<Entry<V>>)
    requires Canonical(m) && Canonical(n) && forall a :: At(m, a) == At(n, a)
    ensures m == n
  {
    if m == [] || n == [] {
      var k := if m == [] then n else m;
      forall a ensures At(k, a) == None { assert At(m, a) == At(n, a); }
      NothingMapped(k);
    } else {
      SameHead(m, n);
      SameHead(n, m);
      forall a ensures At(m[1..], a) == At(n[1..], a) {
        assert At(m, a) == At(n, a);
        if a < m[0].end {
          if At(m[1..], a).Some? { var i := AtFound(m[1..], a); }
          if At(n[1..], a).Some? { var i := AtFound(n[1..], a); }
        }
      }
      CanonicalUnique(m[1..], n[1..]);
    }
  }

  lemma NothingMapped<V>(m: seq<Entry<V>>)
    requires Sorted(m) && forall a :: At(m, a) == None
    ensures m == []
  {
    if m != [] { var v := At(m, m[0].start); }
  }

  lemma EndsAtChange<V>(m: seq<Entry<V>>)
    requires Canonical(m) && m != []
    ensures At(m, m[0].end) != Some(m[0].value)
  {
    if At(m, m[0].end).Some? {
      var i := AtFound(m, m[0].end);
      assert !Mergeable(m[0], m[1]);
    }
  }

  lemma SameHead<V>(m: seq<Entry<V>>, n: seq<Entry<V>>)
    requires Canonical(m) && Canonical(n) && m != [] && n != []
    requires forall a :: At(m, a) == At(n, a)
    ensures n[0].start <= m[0].start
    ensures n[0].start == m[0].start ==> n[0].value == m[0].value && m[0].end <= n[0].end
  {
    var a := m[0].start;
    assert At(m, a) == At(n, a);
    var i := AtFound(n, a);
    assert At(m, n[0].end) == At(n, n[0].end);
    EndsAtChange(n);
  }

  // ----- Cutting and joining -----

  /** What lies below `lo`. */
  function Below<V>(m: seq<Entry<V>>, lo: nat): seq<Entry<V>> {
    if m == [] || lo <= m[0].start then []
    else if lo < m[0].end then [m[0].(end := lo)]
    else [m[0]] + Below(m[1..], lo)
  }

  /** What lies at `hi` and above. */
  function Above<V>(m: seq<Entry<V>>, hi: nat): seq<Entry<V>> {
    if m == [] then []
    else if m[0].end <= hi then Above(m[1..], hi)
    else if m[0].start < hi then [m[0].(start := hi)] + m[1..]
    else m
  }

  /** Joins two maps, the second lying above the first, merging at the seam. */
  function Join<V(==)>(m: seq<Entry<V>>, n: seq<Entry<V>>): seq<Entry<V>> {
    if m != [] && n != [] && Mergeable(m[|m| - 1], n[0]) then
      m[..|m| - 1] + [m[|m| - 1].(end := n[0].end)] + n[1..]
    else m + n
  }

  lemma {:induction false} BelowCanonical<V>(m: seq<Entry<V>>, lo: nat)
    requires Canonical(m)
    ensures Canonical(Below(m, lo))
    ensures forall i :: 0 <= i < |Below(m, lo)| ==> Below(m, lo)[i].end <= lo
    ensures Below(m, lo) != [] ==>
              m != [] && Below(m, lo)[0].start == m[0].start && Below(m, lo)[0].value == m[0].value
  {
    if m != [] && m[0].end <= lo {
      BelowCanonical(m[1..], lo);
      var b := Below(m[1..], lo);
      assert Below(m, lo) == [m[0]] + b;
      if b != [] { assert b[0].start == m[1].start && !Mergeable(m[0], m[1]); }
    }
  }

  lemma {:induction false} BelowAt<V>(m: seq<Entry<V>>, lo: nat, a: int)
    requires Sorted(m)
    ensures At(Below(m, lo), a) == if a < lo then At(m, a) else None
  {
    if At(m, a).Some? { var i := AtFound(m, a); }
    if m != [] && m[0].end <= lo {
      BelowAt(m[1..], lo, a);
      assert Below(m, lo)[1..] == Below(m[1..], lo);
    }
  }

  lemma {:induction false} AboveCanonical<V>(m: seq<Entry<V>>, hi: nat)
    requires Canonical(m)
    ensures Canonical(Above(m, hi))
    ensures forall i :: 0 <= i < |Above(m, hi)| ==> hi <= Above(m, hi)[i].start
  {
    hide Canonical;
    if m == [] {
    } else if m[0].end <= hi {
      TailCanonical(m);
      AboveCanonical(m[1..], hi);
    } else if m[0].start < hi {
      ShortenFirst(m, hi);
    } else {
      FirstIsLowest(m);
    }
  }

  lemma TailCanonical<V>(m: seq<Entry<V>>)
    requires Canonical(m) && m != []
    ensures Canonical(m[1..])
  {
    forall i | 0 <= i < |m| - 2 ensures !Mergeable(m[1..][i], m[1..][i + 1]) {
      assert !Mergeable(m[i + 1], m[i + 2]);
    }
  }

  lemma FirstIsLowest<V>(m: seq<Entry<V>>)
    requires Canonical(m) && m != []
    ensures forall i :: 0 <= i < |m| ==> m[0].start <= m[i].start
  {
  }

  lemma ShortenFirst<V>(m: seq<Entry<V>>, start: nat)
    requires Canonical(m) && m != [] && m[0].start <= start < m[0].end
    ensures var r := [m[0].(start := start)] + m[1..];
            Canonical(r) && forall i :: 0 <= i < |r| ==> start <= r[i].start
  {
    var r := [m[0].(start := start)] + m[1..];
    assert forall i :: 1 <= i < |m| ==> r[i] == m[i];
    forall i | 0 <= i < |r| - 1 ensures !Mergeable(r[i], r[i + 1]) {
      assert !Mergeable(m[i], m[i + 1]);
    }
  }

  lemma {:induction false} AboveAt<V>(m: seq<Entry<V>>, hi: nat, a: int)
    requires Sorted(m)
    ensures At(Above(m, hi), a) == if hi <= a then At(m, a) else None
  {
    if m == [] {
    } else if m[0].end <= hi {
      AboveAt(m[1..], hi, a);
    } else {
      assert Above(m, hi)[1..] == m[1..];
      if At(m[1..], a).Some? { var i := AtFound(m[1..], a); }
    }
  }

  lemma JoinCanonical<V>(m: seq<Entry<V>>, n: seq<Entry<V>>, cut: nat)
    requires Canonical(m) && Canonical(n)
    requires forall i :: 0 <= i < |m| ==> m[i].end <= cut
    requires forall i :: 0 <= i < |n| ==> cut <= n[i].start
    ensures Canonical(Join(m, n))
  {
    if m != [] && n != [] && Mergeable(m[|m| - 1], n[0]) {
      MergedCanonical(m, n, cut);
    } else {
      var r := m + n;
      forall i | 0 <= i < |r| - 1 ensures !Mergeable(r[i], r[i + 1]) {
        if i < |m| - 1 { assert !Mergeable(m[i], m[i + 1]); }
        if i >= |m| { assert !Mergeable(n[i - |m|], n[i - |m| + 1]); }
      }
    }
  }

  lemma MergedCanonical<V>(m: seq<Entry<V>>, n: seq<Entry<V>>, cut: nat)
    requires Canonical(m) && Canonical(n) && m != [] && n != [] && Mergeable(m[|m| - 1], n[0])
    requires forall i :: 0 <= i < |m| ==> m[i].end <= cut
    requires forall i :: 0 <= i < |n| ==> cut <= n[i].start
    ensures Canonical(m[..|m| - 1] + [m[|m| - 1].(end := n[0].end)] + n[1..])
  {
    var last := |m| - 1;
    var r := m[..last] + [m[last].(end := n[0].end)] + n[1..];
    assert forall i :: 0 <= i < last ==> r[i] == m[i];
    assert r[last].start == m[last].start && r[last].end == n[0].end && r[last].value == n[0].value;
    assert forall i :: last < i < |r| ==> r[i] == n[i - last];
    forall i | 0 <= i < |r| - 1 ensures !Mergeable(r[i], r[i + 1]) {
      if i < last { assert !Mergeable(m[i], m[i + 1]); } else { assert !Mergeable(n[i - last], n[i - last + 1]); }
    }
  }

  lemma JoinAt<V>(m: seq<Entry<V>>, n: seq<Entry<V>>, cut: nat, a: int)
    requires Canonical(m) && Canonical(n)
    requires forall i :: 0 <= i < |m| ==> m[i].end <= cut
    requires forall i :: 0 <= i < |n| ==> cut <= n[i].start
    ensures At(Join(m, n), a) == if a < cut then At(m, a) else At(n, a)
  {
    if At(m, a).Some? { var i := AtFound(m, a); }
    if At(n, a).Some? { var i := AtFound(n, a); }
    if m != [] && n != [] && Mergeable(m[|m| - 1], n[0]) {
      SeamAt(m, n, a);
    }
    AtConcat(m, n, a);
  }

  /** Merging at the seam does not change the meaning. */
  lemma SeamAt<V>(m: seq<Entry<V>>, n: seq<Entry<V>>, a: int)
    requires Sorted(m) && Sorted(n) && m != [] && n != [] && Mergeable(m[|m| - 1], n[0])
    ensures At(Join(m, n), a) == At(m + n, a)
  {
    var last := |m| - 1;
    var front, back := m[..last], n[1..];
    var e := m[last].(end := n[0].end);
    assert m + n == front + ([m[last]] + ([n[0]] + back));
    assert Join(m, n) == front + ([e] + back);
    AtConcat(front, [m[last]] + ([n[0]] + back), a);
    AtConcat(front, [e] + back, a);
    MergedAt(m[last], n[0], back, a);
  }

  lemma MergedAt<V>(x: Entry<V>, y: Entry<V>, back: seq<Entry<V>>, a: int)
    requires x.start < x.end && y.start < y.end && Mergeable(x, y)
    ensures At([x.(end := y.end)] + back, a) == At([x] + ([y] + back), a)
  {
    AtConcat([x.(end := y.end)], back, a);
    AtConcat([x], [y] + back, a);
    AtConcat([y], back, a);
  }

  lemma JoinEnds<V>(m: seq<Entry<V>>, n: seq<Entry<V>>, hi: nat)
    requires forall i :: 0 <= i < |m| ==> m[i].end <= hi
    requires forall i :: 0 <= i < |n| ==> n[i].end <= hi
    ensures forall i :: 0 <= i < |Join(m, n)| ==> Join(m, n)[i].end <= hi
  {
  }

  // ----- The operations -----

  function Remove<V(==)>(m: seq<Entry<V>>, lo: nat, hi: nat): seq<Entry<V>> {
    Join(Below(m, lo), Above(m, hi))
  }

  function Insert<V(==)>(m: seq<Entry<V>>, lo: nat, hi: nat, v: V): seq<Entry<V>> {
    Join(Join(Below(m, lo), [Entry(lo, hi, v)]), Above(m, hi))
  }

  lemma RemoveMeaning<V>(m: seq<Entry<V>>, lo: nat, hi: nat)
    requires Canonical(m) && lo < hi
    ensures Canonical(Remove(m, lo, hi))
    ensures forall a :: At(Remove(m, lo, hi), a) == if lo <= a < hi then None else At(m, a)
  {
    BelowCanonical(m, lo);
    AboveCanonical(m, hi);
    JoinCanonical(Below(m, lo), Above(m, hi), lo);
    forall a ensures At(Remove(m, lo, hi), a) == if lo <= a < hi then None else At(m, a) {
      BelowAt(m, lo, a);
      AboveAt(m, hi, a);
      JoinAt(Below(m, lo), Above(m, hi), lo, a);
    }
  }

  lemma OneAt<V>(lo: nat, hi: nat, v: V, a: int)
    ensures At([Entry(lo, hi, v)], a) == if lo <= a < hi then Some(v) else None
  {
  }

  lemma InsertMeaning<V>(m: seq<Entry<V>>, lo: nat, hi: nat, v: V)
    requires Canonical(m) && lo < hi
    ensures Canonical(Insert(m, lo, hi, v))
    ensures forall a :: At(Insert(m, lo, hi, v), a) == if lo <= a < hi then Some(v) else At(m, a)
  {
    hide Below, Above, Join, At;
    var one := [Entry(lo, hi, v)];
    BelowCanonical(m, lo);
    AboveCanonical(m, hi);
    JoinCanonical(Below(m, lo), one, lo);
    JoinEnds(Below(m, lo), one, hi);
    JoinCanonical(Join(Below(m, lo), one), Above(m, hi), hi);
    forall a ensures At(Insert(m, lo, hi, v), a) == if lo <= a < hi then Some(v) else At(m, a) {
      BelowAt(m, lo, a);
      AboveAt(m, hi, a);
      OneAt(lo, hi, v, a);
      JoinAt(Below(m, lo), one, lo, a);
      JoinAt(Join(Below(m, lo), one), Above(m, hi), hi, a);
    }
  }

  /** The maximal unmapped ranges within `[lo, hi)`. */
  function Gaps<V>(m: seq<Entry<V>>, lo: nat, hi: nat): seq<Span>
    decreases |m|
  {
    if hi <= lo then []
    else if m == [] || hi <= m[0].start then [Span(lo, hi)]
    else if m[0].end <= lo then Gaps(m[1..], lo, hi)
    else (if lo < m[0].start then [Span(lo, m[0].start)] else []) + Gaps(m[1..], m[0].end, hi)
  }

  /** The entries that share an address with `[lo, hi)`. */
  function Overlapping<V>(m: seq<Entry<V>>, lo: nat, hi: nat): seq<Entry<V>> {
    if m == [] then []
    else (if m[0].start < hi && lo < m[0].end then [m[0]] else []) + Overlapping(m[1..], lo, hi)
  }

  ghost predicate Covers(spans: seq<Span>, a: int) {
    exists i :: 0 <= i < |spans| && spans[i].start <= a < spans[i].end
  }

  /** Non-empty spans within bounds, in order, with at least one address between neighbours. */
  ghost predicate Separated(spans: seq<Span>, lo: nat, hi: nat) {
    && (forall i :: 0 <= i < |spans| ==> lo <= spans[i].start < spans[i].end <= hi)
    && (forall i, j :: 0 <= i < j < |spans| ==> spans[i].end < spans[j].start)
  }

  /**
  The gaps are exactly the unmapped addresses of the request, as ranges that cannot be extended: strictly
  separated, and mapped (or outside the request) right before and right after.
  */
  lemma {:induction false} GapsMeaning<V>(m: seq<Entry<V>>, lo: nat, hi: nat)
    requires Sorted(m)
    ensures Separated(Gaps(m, lo, hi), lo, hi)
    ensures forall a :: Covers(Gaps(m, lo, hi), a) <==> lo <= a < hi && At(m, a).None?
    decreases |m|
  {
    hide Covers, At;
    var g := Gaps(m, lo, hi);
    if hi <= lo {
      CoversNothing();
    } else if m == [] || hi <= m[0].start {
      forall a ensures Covers(g, a) <==> lo <= a < hi && At(m, a).None? {
        AllIsGap(m, lo, hi, a);
      }
    } else if m[0].end <= lo {
      GapsMeaning(m[1..], lo, hi);
      forall a ensures Covers(g, a) <==> lo <= a < hi && At(m, a).None? {
        NotInGaps(m, lo, a);
      }
    } else {
      GapsMeaning(m[1..], m[0].end, hi);
      forall a ensures Covers(g, a) <==> lo <= a < hi && At(m, a).None? {
        GapsStep(m, lo, hi, a);
      }
    }
  }

  lemma CoversNothing()
    ensures forall a :: !Covers([], a)
  {
  }

  lemma AllIsGap<V>(m: seq<Entry<V>>, lo: nat, hi: nat, a: int)
    requires Sorted(m) && lo < hi && (m == [] || hi <= m[0].start)
    ensures Covers([Span(lo, hi)], a) <==> lo <= a < hi && At(m, a).None?
  {
    hide At;
    if At(m, a).Some? { var i := AtFound(m, a); }
    if lo <= a < hi { assert [Span(lo, hi)][0].start <= a < [Span(lo, hi)][0].end; }
  }

  lemma NotInGaps<V>(m: seq<Entry<V>>, lo: nat, a: int)
    requires Sorted(m) && m != [] && m[0].end <= lo
    ensures lo <= a ==> At(m, a) == At(m[1..], a)
  {
  }

  lemma GapsStep<V>(m: seq<Entry<V>>, lo: nat, hi: nat, a: int)
    requires Sorted(m) && m != [] && lo < hi && m[0].start < hi && lo < m[0].end
    requires Covers(Gaps(m[1..], m[0].end, hi), a) <==> m[0].end <= a < hi && At(m[1..], a).None?
    ensures Covers(Gaps(m, lo, hi), a) <==> lo <= a < hi && At(m, a).None?
  {
    if At(m[1..], a).Some? { var i := AtFound(m[1..], a); }
    if lo < m[0].start {
      CoversCons(Span(lo, m[0].start), Gaps(m[1..], m[0].end, hi), a);
    } else {
      assert Gaps(m, lo, hi) == Gaps(m[1..], m[0].end, hi);
    }
  }

  lemma CoversCons(s: Span, rest: seq<Span>, a: int)
    ensures Covers([s] + rest, a) <==> s.start <= a < s.end || Covers(rest, a)
  {
    var g := [s] + rest;
    if s.start <= a < s.end { assert g[0].start <= a < g[0].end; }
    if Covers(rest, a) {
      var i :| 0 <= i < |rest| && rest[i].start <= a < rest[i].end;
      assert g[i + 1].start <= a < g[i + 1].end;
    }
    if Covers(g, a) {
      var i :| 0 <= i < |g| && g[i].start <= a < g[i].end;
      if i > 0 { assert rest[i - 1] == g[i]; }
    }
  }

  /** Overlapping entries keep their order, and each of them meets the request. */
  lemma {:induction false} OverlappingSorted<V>(m: seq<Entry<V>>, lo: nat, hi: nat)
    requires Sorted(m)
    ensures Sorted(Overlapping(m, lo, hi))
    ensures forall i :: 0 <= i < |Overlapping(m, lo, hi)| ==>
              Overlapping(m, lo, hi)[i].start < hi && lo < Overlapping(m, lo, hi)[i].end
    ensures forall i :: 0 <= i < |Overlapping(m, lo, hi)| ==> m != [] && m[0].start <= Overlapping(m, lo, hi)[i].start
  {
    if m != [] { OverlappingSorted(m[1..], lo, hi); }
  }

  /** They are exactly the entries that share an address with the request. */
  lemma {:induction false} OverlappingExact<V>(m: seq<Entry<V>>, lo: nat, hi: nat, e: Entry<V>)
    requires Sorted(m) && lo < hi
    ensures e in Overlapping(m, lo, hi) <==> e in m && exists a :: lo <= a < hi && Contains(e, a)
  {
    if m != [] {
      OverlappingExact(m[1..], lo, hi, e);
      assert m == [m[0]] + m[1..];
      if m[0].start < hi && lo < m[0].end {
        assert Contains(m[0], Max(lo, m[0].start));
      }
    }
  }

  predicate Contains<V>(e: Entry<V>, a: int) {
    e.start <= a < e.end
  }

  /** They agree with the map throughout the request. */
  lemma {:induction false} OverlappingAt<V>(m: seq<Entry<V>>, lo: nat, hi: nat, a: int)
    requires lo <= a < hi
    ensures At(Overlapping(m, lo, hi), a) == At(m, a)
  {
    if m != [] {
      OverlappingAt(m[1..], lo, hi, a);
      AtConcat(if m[0].start < hi && lo < m[0].end then [m[0]] else [], Overlapping(m[1..], lo, hi), a);
    }
  }
}

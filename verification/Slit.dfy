/** The system locality distance table. */
module Slits {
  import opened Basics
  import opened ByteStrings
  import opened Checksums
  import opened TableHeaders

  const SLIT: Kind := Kind([0x53, 0x4c, 0x49, 0x54], 1)

  function SlitHeader(oem: Oem, localities: nat, length: nat, checksum: Byte): (r: Bytes)
    requires ValidOem(oem)
    ensures |r| == 44
  {
    Header(SLIT, length, checksum, oem) + Le(localities, 8)
  }

  lemma SlitHeaderLayout(oem: Oem, localities: nat, length: nat, checksum: Byte)
    requires ValidOem(oem)
    ensures var r := SlitHeader(oem, localities, length, checksum);
            && r[..HEADER_LEN] == Header(SLIT, length, checksum, oem)
            && (Field(r, 36, 8) == localities <==> localities < TWO64)
  {
    hide Le, Header;
    Powers();
    FieldReadsIff(SlitHeader(oem, localities, length, checksum), 36, 8, localities);
  }

  lemma SignatureIs()
    ensures SLIT.signature == Text("SLIT")
  {
    var t := Text("SLIT");
    assert t[0] == 0x53 && t[1] == 0x4c && t[2] == 0x49 && t[3] == 0x54;
  }

  ghost function Fixed(oem: Oem, localities: nat, length: nat): nat
    requires ValidOem(oem)
  {
    FixedSum(SLIT, oem) + Sum(Le(length, 4)) + Sum(Le(localities, 8))
  }

  lemma SlitHeaderSum(oem: Oem, localities: nat, length: nat, checksum: Byte)
    requires ValidOem(oem)
    ensures Sum(SlitHeader(oem, localities, length, checksum)) == Fixed(oem, localities, length) + checksum
  {
    hide Le;
    HeaderSum(SLIT, length, checksum, oem);
    SumConcat(Header(SLIT, length, checksum, oem), Le(localities, 8));
  }

  /** The entry for the distance from `a` to `b`. */
  function Index(localities: nat, a: nat, b: nat): nat {
    a + localities * b
  }

  lemma IndexInRange(localities: nat, a: nat, b: nat)
    requires a < localities && b < localities
    ensures Index(localities, a, b) < localities * localities
  {
    Product(localities, b + 1, localities);
    assert localities * (b + 1) == localities * b + localities;
  }

  lemma IndexInjective(localities: nat, a: nat, b: nat, c: nat, d: nat)
    requires a < localities && c < localities && Index(localities, a, b) == Index(localities, c, d)
    ensures a == c && b == d
  {
    assert localities * (b - d) == c - a;
    MultipleOf(localities, b - d);
  }

  /** An entry and its mirror image are the same entry only on the diagonal, or if there is only one. */
  lemma MirrorsMeet(localities: nat, a: nat, b: nat)
    requires Index(localities, a, b) == Index(localities, b, a)
    ensures a == b || localities == 1
  {
    if a < b {
      Stretch(localities, b - a);
      assert localities * (b - a) == localities * b - localities * a;
    } else if b < a {
      Stretch(localities, a - b);
      assert localities * (a - b) == localities * a - localities * b;
    }
  }

  lemma Product(x: nat, y: nat, z: nat)
    requires y <= z
    ensures x * y <= x * z
  {
  }

  lemma Stretch(x: nat, d: nat)
    requires d > 0
    ensures x == 0 ==> x * d == 0
    ensures x >= 2 ==> x * d >= 2 * d
  {
    if x >= 2 { Product(d, 2, x); }
  }

  ghost predicate Symmetric(entries: Bytes, localities: nat)
    requires |entries| == localities * localities
  {
    forall a, b | 0 <= a < localities && 0 <= b < localities ::
      (IndexInRange(localities, a, b); IndexInRange(localities, b, a);
       entries[Index(localities, a, b)] == entries[Index(localities, b, a)])
  }

  function SetByte(s: Bytes, i: nat, v: Byte): (r: Bytes)
    requires i < |s|
    ensures |r| == |s| && r[i] == v && forall k :: 0 <= k < |s| && k != i ==> r[k] == s[k]
  {
    s[..i] + [v] + s[i + 1..]
  }

  /** The entries after a distance was set in both directions. */
  function Distances(entries: Bytes, localities: nat, a: nat, b: nat, value: Byte): (r: Bytes)
    requires Index(localities, a, b) < |entries| && Index(localities, b, a) < |entries|
    ensures |r| == |entries|
  {
    SetByte(SetByte(entries, Index(localities, a, b), value), Index(localities, b, a), value)
  }

  /** By how much the first `k` distances of a domain to itself exceed the 10 they start with. */
  function Excess(entries: Bytes, localities: nat, k: nat): int
    requires |entries| == localities * localities && k <= localities
  {
    if k == 0 then 0
    else
      IndexInRange(localities, k - 1, k - 1);
      Excess(entries, localities, k - 1) + entries[Index(localities, k - 1, k - 1)] - 10
  }

  class Slit {
    const oem: Oem
    const localities: nat
    const length: nat
    var checksumByte: Byte
    const checksum: Checksum
    var entries: Bytes

    ghost function Drift(): int
      requires |entries| == localities * localities
      reads this
    {
      Excess(entries, localities, localities)
    }

    ghost function Emitted(): Bytes
      requires ValidOem(oem)
      reads this
    {
      SlitHeader(oem, localities, length, checksumByte) + entries
    }

    ghost predicate Valid()
      reads this, checksum
    {
      && ValidOem(oem) && checksum.Valid()
      && |entries| == localities * localities && length == |Emitted()| && length < TWO32
      && Congruent(checksum.total, Fixed(oem, localities, length) + Sum(entries) + Drift())
      && (checksum.total + checksumByte) % 256 == 0
    }

    /**
    After any sequence of calls the bytes sum to zero exactly when the distances of the domains to themselves
    exceed 10 by a multiple of 256 in all.
    */
    lemma SumsToZeroIff()
      requires Valid()
      ensures ZeroSum(Emitted()) <==> Excess(entries, localities, localities) % 256 == 0
    {
      hide Le, Fixed, Sum, Congruent, Excess;
      SlitHeaderSum(oem, localities, length, checksumByte);
      SumConcat(SlitHeader(oem, localities, length, checksumByte), entries);
      CongruentCloses(checksum.total, checksumByte, Fixed(oem, localities, length) + Sum(entries) + Drift());
    }

    /** The emitted table holds what the caller gave, and behind it the matrix, column by column. */
    lemma HeaderHolds()
      requires Valid()
      ensures StartsAs(Emitted(), "SLIT", 1, oem) && |Emitted()| >= 44
      ensures Field(Emitted(), 36, 8) == localities && Emitted()[44..] == entries
    {
      hide Le, Field, Sum, Congruent, StartsAs, Header, Excess;
      var front := SlitHeader(oem, localities, length, checksumByte);
      assert Emitted() == Header(SLIT, length, checksumByte, oem) + (Le(localities, 8) + entries);
      SignatureIs();
      TableStarts(SLIT, length, checksumByte, oem, Le(localities, 8) + entries, "SLIT");
      SlitHeaderLayout(oem, localities, length, checksumByte);
      if localities > 0 { Product(localities, 1, localities); }
      FieldInFront(front, entries, 36, 8);
    }

    /** All distances start out as 10. */
    constructor (oem_: Oem, localities_: nat)
      requires ValidOem(oem_) && localities_ * localities_ + 44 < TWO32
      ensures Valid() && ZeroSum(Emitted()) && oem == oem_ && localities == localities_ && fresh(checksum)
      ensures Symmetric(entries, localities) && forall i :: 0 <= i < |entries| ==> entries[i] == 10
    {
      hide Le, Sum, Congruent, ZeroSum, Excess;
      var entryCount := localities_ * localities_;
      var len := 36 + entryCount + 8;
      var cksum := new Checksum();
      cksum.Append(Header(SLIT, len, 0, oem_));
      HeaderSum(SLIT, len, 0, oem_);
      cksum.Append(Le(localities_, 8));
      var es: Bytes := seq(entryCount, _ => 10);
      cksum.Append(es);
      NoExcess(es, localities_, localities_);
      CongruentSame(cksum.total, Fixed(oem_, localities_, len) + Sum(es) + 0);
      oem, localities, length, entries := oem_, localities_, len, es;
      checksum, checksumByte := cksum, 0;
      new;
      checksumByte := checksum.Value();
      SumsToZeroIff();
      forall a, b | 0 <= a < localities && 0 <= b < localities
        ensures Index(localities, a, b) < |entries| && Index(localities, b, a) < |entries|
      {
        IndexInRange(localities, a, b);
        IndexInRange(localities, b, a);
      }
    }

    /**
    Sets a distance in both directions.  The checksum is adjusted twice, so it drifts by the change of a distance
    to itself; from a table that is right, it stays right exactly when the entries are different ones or do not
    change.
    */
    method SetDistance(a: nat, b: nat, value: Byte)
      requires Valid() && Index(localities, a, b) < |entries| && Index(localities, b, a) < |entries|
      modifies this`entries, this`checksumByte, checksum
      ensures Valid()
      ensures Drift() == old(Drift()) + if a == b then value - old(entries[Index(localities, a, b)]) else 0
      ensures entries == Distances(old(entries), localities, a, b, value)
      ensures old(ZeroSum(Emitted())) ==>
                (ZeroSum(Emitted()) <==> a != b || old(entries[Index(localities, a, b)]) == value)
    {
      hide Le, Sum, ZeroSum, Congruent, Fixed, SlitHeader, Excess, Index, SetByte;
      var i, j := Index(localities, a, b), Index(localities, b, a);
      SumsToZeroIff();
      Adjusted(entries, localities, a, b, value);
      DriftIff(Drift(), entries[i], value);
      var oldValues := [entries[i], entries[j]];
      entries := SetByte(entries, i, value);
      entries := SetByte(entries, j, value);
      UpdateHeader(oldValues, value);
      CongruentMove(old(checksum.total), old(Fixed(oem, localities, length) + Sum(entries) + Drift()),
                    checksum.total, Fixed(oem, localities, length) + Sum(entries) + Drift());
      SumsToZeroIff();
    }

    method UpdateHeader(oldValues: Bytes, newValue: Byte)
      requires checksum.Valid()
      modifies this`checksumByte, checksum
      ensures checksum.Valid() && checksum.total == old(checksum.total) - Sum(oldValues) + Sum([newValue, newValue])
      ensures (checksum.total + checksumByte) % 256 == 0
    {
      checksum.Delete(oldValues);
      checksum.Append([newValue, newValue]);
      checksumByte := checksum.Value();
    }

    method ToAmlBytes() returns (r: Bytes)
      requires Valid()
      ensures r == Emitted() && |r| == length
    {
      hide SlitHeader, Sum, Congruent, Fixed;
      r := SlitHeader(oem, localities, length, checksumByte);
      for i := 0 to |entries|
        invariant r == SlitHeader(oem, localities, length, checksumByte) + entries[..i]
      {
        r := r + [entries[i]];
      }
      assert entries[..|entries|] == entries;
    }
  }

  lemma {:induction false} NoExcess(entries: Bytes, localities: nat, k: nat)
    requires |entries| == localities * localities && k <= localities
    requires forall i :: 0 <= i < |entries| ==> entries[i] == 10
    ensures Excess(entries, localities, k) == 0
  {
    hide Index;
    if k > 0 {
      IndexInRange(localities, k - 1, k - 1);
      NoExcess(entries, localities, k - 1);
    }
  }

  lemma {:induction false} ExcessAfter(entries: Bytes, localities: nat, a: nat, b: nat, value: Byte, k: nat)
    requires |entries| == localities * localities && a < localities && b < localities && k <= localities
    ensures Index(localities, a, b) < |entries| && Index(localities, b, a) < |entries|
    ensures Excess(Distances(entries, localities, a, b, value), localities, k) == Excess(entries, localities, k)
              + if a == b && a < k then value - entries[Index(localities, a, a)] else 0
    decreases k
  {
    hide Index, Symmetric, Distances;
    SetDistanceMeaning(entries, localities, a, b, value);
    if k > 0 {
      ExcessAfter(entries, localities, a, b, value, k - 1);
      IndexInRange(localities, k - 1, k - 1);
    }
  }

  /** What is taken from and added to the running checksum, against the change of the sum and of the excess. */
  lemma Adjusted(entries: Bytes, localities: nat, a: nat, b: nat, value: Byte)
    requires |entries| == localities * localities
    requires Index(localities, a, b) < |entries| && Index(localities, b, a) < |entries|
    ensures var after := Distances(entries, localities, a, b, value);
            && Sum([value, value]) - Sum([entries[Index(localities, a, b)], entries[Index(localities, b, a)]]) ==
               (Sum(after) - Sum(entries))
               + (Excess(after, localities, localities) - Excess(entries, localities, localities))
            && Excess(after, localities, localities) == Excess(entries, localities, localities)
                 + if a == b then value - entries[Index(localities, a, b)] else 0
  {
    hide Sum, Excess, SetByte;
    BothInRange(localities, a, b);
    TwoUpdates(entries, Index(localities, a, b), Index(localities, b, a), value);
    SameIndexIff(localities, |entries|, a, b);
    PairSum(entries[Index(localities, a, b)], entries[Index(localities, b, a)]);
    PairSum(value, value);
    ExcessAfter(entries, localities, a, b, value, localities);
  }

  lemma BothInRange(localities: nat, a: nat, b: nat)
    requires Index(localities, a, b) < localities * localities && Index(localities, b, a) < localities * localities
    ensures a < localities && b < localities
  {
    if localities <= a { Product(localities, localities, a); }
    if localities <= b { Product(localities, localities, b); }
  }

  lemma CongruentMove(total: int, sum: int, total': int, sum': int)
    requires Congruent(total, sum) && total' - total == sum' - sum
    ensures Congruent(total', sum')
  {
    var q := Quotient(total, sum);
    CongruentBy(total', sum', q);
  }

  lemma PairSum(x: Byte, y: Byte)
    ensures Sum([x, y]) == x + y
  {
    SumAppend([x], y);
    assert [x] + [y] == [x, y];
  }

  lemma SameIndexIff(localities: nat, entries: nat, a: nat, b: nat)
    requires entries == localities * localities
    requires Index(localities, a, b) < entries && Index(localities, b, a) < entries
    ensures Index(localities, a, b) == Index(localities, b, a) <==> a == b
  {
    if Index(localities, a, b) == Index(localities, b, a) { MirrorsMeet(localities, a, b); }
  }

  lemma TwoUpdates(entries: Bytes, i: nat, j: nat, value: Byte)
    requires i < |entries| && j < |entries|
    ensures Sum(SetByte(SetByte(entries, i, value), j, value)) ==
            Sum(entries) - entries[i] + value + if i == j then 0 else value - entries[j]
  {
    hide Sum;
    SumUpdate(entries, i, value);
    SumUpdate(SetByte(entries, i, value), j, value);
  }

  lemma DriftIff(drift: int, x: Byte, v: Byte)
    ensures drift % 256 == 0 ==> ((drift + (v - x)) % 256 == 0 <==> x == v)
  {
    if drift % 256 == 0 { CongruentBy(drift + (v - x), v - x, drift / 256); }
  }

  /** What setting a distance means for the matrix: the two entries change, all others stay; symmetry is kept. */
  lemma SetDistanceMeaning(entries: Bytes, localities: nat, a: nat, b: nat, value: Byte)
    requires |entries| == localities * localities && a < localities && b < localities
    ensures Index(localities, a, b) < |entries| && Index(localities, b, a) < |entries|
    ensures var after := Distances(entries, localities, a, b, value);
            && (Symmetric(entries, localities) ==> Symmetric(after, localities))
            && forall c, d | 0 <= c < localities && 0 <= d < localities ::
                 (IndexInRange(localities, c, d);
                  after[Index(localities, c, d)] ==
                  if (c == a && d == b) || (c == b && d == a) then value else entries[Index(localities, c, d)])
  {
    IndexInRange(localities, a, b);
    IndexInRange(localities, b, a);
    var after := Distances(entries, localities, a, b, value);
    forall c, d | 0 <= c < localities && 0 <= d < localities
      ensures Index(localities, c, d) < |entries|
      ensures after[Index(localities, c, d)] ==
              if (c == a && d == b) || (c == b && d == a) then value else entries[Index(localities, c, d)]
    {
      IndexInRange(localities, c, d);
      if Index(localities, c, d) == Index(localities, a, b) { IndexInjective(localities, c, d, a, b); }
      if Index(localities, c, d) == Index(localities, b, a) { IndexInjective(localities, c, d, b, a); }
    }
  }

  /** Setting the distance of a domain to itself in a new table breaks the checksum. */
  method DiagonalDistance(oem: Oem) returns (t: Slit)
    requires ValidOem(oem)
    ensures t.Valid() && !ZeroSum(t.Emitted())
  {
    hide Le, Sum, ZeroSum, Symmetric;
    t := new Slit(oem, 2);
    t.SetDistance(0, 0, 11);
  }

  /** Setting it back repairs the table. */
  method DiagonalDistanceUndone(oem: Oem) returns (t: Slit)
    requires ValidOem(oem)
    ensures t.Valid() && ZeroSum(t.Emitted())
  {
    hide Le, Sum, ZeroSum, Symmetric, Excess;
    t := new Slit(oem, 2);
    t.SumsToZeroIff();
    t.SetDistance(0, 0, 11);
    t.SetDistance(0, 0, 10);
    t.SumsToZeroIff();
  }
}

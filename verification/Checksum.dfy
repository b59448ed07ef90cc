/** Sums of bytes, kept modulo 256. */
module Checksums {
  import opened Basics
  import opened ByteStrings

  function Sum(b: Bytes): nat {
    if b == [] then 0 else b[0] + Sum(b[1..])
  }

  lemma {:induction false} SumConcat(a: Bytes, b: Bytes)
    ensures Sum(a + b) == Sum(a) + Sum(b)
  {
    if a == [] {
      assert a + b == b;
    } else {
      SumConcat(a[1..], b);
      assert (a + b)[1..] == a[1..] + b;
    }
  }

  lemma SumAppend(a: Bytes, b: Byte)
    ensures Sum(a + [b]) == Sum(a) + b
  {
    SumConcat(a, [b]);
  }

  lemma SumSteps(b: Bytes)
    ensures Sum(b[..0]) == 0 && Sum(b[..|b|]) == Sum(b)
    ensures forall i :: 0 <= i < |b| ==> Sum(b[..i + 1]) == Sum(b[..i]) + b[i]
  {
    assert b[..|b|] == b;
    forall i | 0 <= i < |b| ensures Sum(b[..i + 1]) == Sum(b[..i]) + b[i] {
      assert b[..i + 1] == b[..i] + [b[i]];
      SumAppend(b[..i], b[i]);
    }
  }

  lemma {:induction false} SumUpdate(b: Bytes, i: nat, v: Byte)
    requires i < |b|
    ensures Sum(b[..i] + [v] + b[i + 1..]) == Sum(b) - b[i] + v
  {
    SumConcat(b[..i] + [v], b[i + 1..]);
    SumConcat(b[..i], [v]);
    SumConcat(b[..i], b[i..]);
    assert b[..i] + b[i..] == b;
    assert b[i..] == [b[i]] + b[i + 1..];
  }

  /** A table is accepted when its bytes sum to zero. */
  predicate ZeroSum(b: Bytes) {
    Sum(b) % 256 == 0
  }

  predicate Congruent(a: int, b: int) {
    (a - b) % 256 == 0
  }

  lemma CongruentBy(a: int, b: int, q: int)
    requires a == b + 256 * q
    ensures Congruent(a, b) && a % 256 == b % 256
  {
    Remainder(a - b, 256, q, 0);
    Remainder(a, 256, b / 256 + q, b % 256);
  }

  lemma Quotient(a: int, b: int) returns (q: int)
    requires Congruent(a, b)
    ensures a == b + 256 * q
  {
    q := (a - b) / 256;
  }

  /** Wrapping early makes no difference. */
  lemma WrapEarly(a: int, d: int)
    ensures (a % 256 + d) % 256 == (a + d) % 256
  {
    CongruentBy(a + d, a % 256 + d, a / 256);
  }

  lemma CongruentSame(a: int, b: int)
    requires a == b
    ensures Congruent(a, b)
  {
  }

  lemma SumOne(b: Byte)
    ensures Sum([b]) == b
  {
  }

  lemma SumNothing()
    ensures Concat([]) == [] && Sum([]) == 0
  {
  }

  lemma CongruentCloses(total: int, checksum: int, rest: int)
    requires Congruent(total, rest)
    ensures (total + checksum) % 256 == 0 <==> (rest + checksum) % 256 == 0
  {
    var q := Quotient(total, rest);
    CongruentBy(total + checksum, rest + checksum, q);
  }

  lemma CongruentShift(total: int, sum: int, a: int, b: int, d: int)
    requires Congruent(total, a) && Congruent(sum, b)
    ensures Congruent(total + sum + d, a + b + d)
  {
    var q := Quotient(total, a);
    var p := Quotient(sum, b);
    CongruentBy(total + sum + d, a + b + d, q + p);
  }

  lemma ComplementCloses(total: int)
    ensures (total + (255 - total % 256 + 1) % 256) % 256 == 0
  {
    var c := 255 - total % 256 + 1;
    Remainder(c, 256, c / 256, c % 256);
    Remainder(total + c % 256, 256, total / 256 + 1 - c / 256, 0);
  }

  /** A running sum.  `total` is the sum without the wrapping. */
  class Checksum {
    var value: Byte
    ghost var total: int

    ghost predicate Valid()
      reads this
    {
      value == total % 256
    }

    constructor ()
      ensures Valid() && total == 0
    {
      value, total := 0, 0;
    }

    method Add(data: Byte)
      requires Valid()
      modifies this
      ensures Valid() && total == old(total) + data
    {
      WrapEarly(total, data);
      value := (value + data) % 256;
      total := total + data;
    }

    method Append(data: Bytes)
      requires Valid()
      modifies this
      ensures Valid() && total == old(total) + Sum(data)
    {
      hide Sum;
      SumSteps(data);
      var v: int := value;
      for i := 0 to |data|
        invariant v == (old(total) + Sum(data[..i])) % 256 && total == old(total)
      {
        WrapEarly(total + Sum(data[..i]), data[i]);
        v := (v + data[i]) % 256;
      }
      value, total := v, total + Sum(data);
    }

    method Delete(data: Bytes)
      requires Valid()
      modifies this
      ensures Valid() && total == old(total) - Sum(data)
    {
      hide Sum;
      SumSteps(data);
      var v: int := value;
      for i := 0 to |data|
        invariant v == (old(total) - Sum(data[..i])) % 256 && total == old(total)
      {
        var d: int := data[i];
        WrapEarly(total - Sum(data[..i]), -d);
        v := (v - d) % 256;
      }
      value, total := v, total - Sum(data);
    }

    /** The byte that brings the sum to zero. */
    method Value() returns (r: Byte)
      requires Valid()
      ensures (total + r) % 256 == 0
    {
      ComplementCloses(total);
      r := (255 - value + 1) % 256;
    }
  }

  /** u8sum: the sum an object's bytes contribute. */
  method U8Sum(b: Bytes) returns (r: Byte)
    ensures Congruent(r, Sum(b))
  {
    hide Sum;
    var cksum := new Checksum();
    cksum.Append(b);
    r := cksum.value;
    CongruentBy(r, Sum(b), -(Sum(b) / 256));
  }

  /** The complement of the sum of all bytes. */
  method GenerateChecksum(data: Bytes) returns (r: Byte)
    ensures (Sum(data) + r) % 256 == 0
  {
    hide Sum;
    SumSteps(data);
    var acc: int := 0;
    for i := 0 to |data|
      invariant acc == Sum(data[..i]) % 256
    {
      WrapEarly(Sum(data[..i]), data[i]);
      acc := (acc + data[i]) % 256;
    }
    ComplementCloses(Sum(data));
    r := (255 - acc + 1) % 256;
  }
}

/** Byte strings: little-endian numbers and concatenation. */
module ByteStrings {
  import opened Basics

  type Bytes = seq<Byte>

  function Pow256(n: nat): (r: nat)
    ensures r > 0
  {
    if n == 0 then 1 else 256 * Pow256(n - 1)
  }

  lemma Powers()
    ensures Pow256(0) == 1 && Pow256(1) == 0x100 && Pow256(2) == 0x1_0000 && Pow256(3) == 0x100_0000
    ensures Pow256(4) == TWO32 && Pow256(8) == TWO64
  {
    assert Pow256(2) == 256 * Pow256(1);
    assert Pow256(4) == 256 * Pow256(3);
    assert Pow256(6) == 256 * Pow256(5);
    assert Pow256(8) == 256 * Pow256(7);
  }

  /** The low `n` bytes of `v`, least significant first. */
  function Le(v: nat, n: nat): (r: seq<Byte>)
    ensures |r| == n
    decreases n
  {
    if n == 0 then [] else [v % 256] + Le(v / 256, n - 1)
  }

  function FromLe(b: seq<Byte>): nat {
    if b == [] then 0 else b[0] + 256 * FromLe(b[1..])
  }

  lemma {:induction false} FromLeBound(b: seq<Byte>)
    ensures FromLe(b) < Pow256(|b|)
  {
    if b != [] { FromLeBound(b[1..]); }
  }

  /** `Le` keeps the value modulo the width. */
  lemma {:induction false} LeRoundTrip(v: nat, n: nat)
    ensures FromLe(Le(v, n)) == v % Pow256(n)
    decreases n
  {
    if n > 0 {
      LeRoundTrip(v / 256, n - 1);
      assert Le(v, n)[1..] == Le(v / 256, n - 1);
      DivMod(v, Pow256(n - 1));
    }
  }

  /** A field of a record: `width` bytes at `at`. */
  function Field(b: Bytes, at: nat, width: nat): nat
    requires at + width <= |b|
  {
    FromLe(b[at..at + width])
  }

  predicate Fits(v: nat, width: nat) {
    v < Pow256(width)
  }

  /** A field that was written with `Le` reads as the number written, if that fits. */
  lemma FieldReads(b: Bytes, at: nat, width: nat, v: nat)
    requires at + width <= |b| && b[at..at + width] == Le(v, width) && Fits(v, width)
    ensures Field(b, at, width) == v
  {
    LeRoundTrip(v, width);
    Remainder(v, Pow256(width), 0, v);
  }

  lemma SliceOfSlice(b: Bytes, at: nat, end: nat, i: nat, j: nat)
    requires at <= end <= |b| && i <= j <= end - at
    ensures b[at..end][i..j] == b[at + i..at + j]
  {
    var s := b[at..end];
    forall k | 0 <= k < j - i ensures s[i..j][k] == b[at + i..at + j][k] {
      assert s[i..j][k] == s[i + k];
    }
  }

  lemma FieldReadsIff(b: Bytes, at: nat, width: nat, v: nat)
    requires at + width <= |b| && b[at..at + width] == Le(v, width)
    ensures Field(b, at, width) == v <==> Fits(v, width)
  {
    LeRoundTrip(v, width);
    if Fits(v, width) { Remainder(v, Pow256(width), 0, v); } else { FieldBound(b, at, width); }
  }

  lemma FieldBound(b: Bytes, at: nat, width: nat)
    requires at + width <= |b|
    ensures Fits(Field(b, at, width), width)
  {
    FromLeBound(b[at..at + width]);
  }

  /** Small constants fit any field. */
  lemma SmallFits()
    ensures forall v, w :: v < 256 && w >= 1 ==> Fits(v, w)
    ensures forall v, w :: v < 0x1_0000 && w >= 2 ==> Fits(v, w)
  {
    Powers();
    forall v, w | v < 256 && w >= 1 ensures Fits(v, w) { PowGrows(1, w); }
    forall v, w | v < 0x1_0000 && w >= 2 ensures Fits(v, w) { PowGrows(2, w); }
  }

  lemma {:induction false} PowGrows(m: nat, n: nat)
    requires m <= n
    ensures Pow256(m) <= Pow256(n)
    decreases n
  {
    if m < n { PowGrows(m, n - 1); }
  }

  lemma DivMod(v: nat, p: nat)
    requires p > 0
    ensures v % (256 * p) == v % 256 + 256 * ((v / 256) % p)
  {
    var q, r := v / 256 / p, (v / 256) % p;
    assert v / 256 == p * q + r;
    assert v == (256 * p) * q + (256 * r + v % 256) by {
      assert 256 * (p * q + r) == (256 * p) * q + 256 * r;
    }
    assert 256 * r + v % 256 < 256 * p;
    Remainder(v, 256 * p, q, 256 * r + v % 256);
  }

  predicate Holds(b: Bytes, at: nat, part: Bytes) {
    at + |part| <= |b| && b[at..at + |part|] == part
  }

  lemma WholeHolds(b: Bytes, at: nat, part: Bytes)
    requires at + |part| <= |b| && b[at..at + |part|] == part
    ensures Holds(b, at, part)
  {
  }

  lemma PartHolds(b: Bytes, at: nat, whole: Bytes, lo: nat, hi: nat)
    requires Holds(b, at, whole) && lo <= hi <= |whole|
    ensures Holds(b, at + lo, whole[lo..hi])
  {
    SliceOfSlice(b, at, at + |whole|, lo, hi);
  }

  lemma FieldHeld(b: Bytes, at: nat, whole: Bytes, lo: nat, width: nat)
    requires Holds(b, at, whole) && lo + width <= |whole|
    ensures at + lo + width <= |b| && Field(b, at + lo, width) == Field(whole, lo, width)
  {
    SliceOfSlice(b, at, at + |whole|, lo, lo + width);
  }

  lemma HeldField(b: Bytes, at: nat, width: nat, v: nat)
    requires Holds(b, at, Le(v, width))
    ensures at + width <= |b| && (Field(b, at, width) == v <==> Fits(v, width))
  {
    FieldReadsIff(b, at, width, v);
  }

  // ----- Concatenation -----

  function Concat(parts: seq<Bytes>): Bytes {
    if parts == [] then [] else parts[0] + Concat(parts[1..])
  }

  lemma ConcatStep(parts: seq<Bytes>)
    ensures parts != [] ==> Concat(parts) == parts[0] + Concat(parts[1..])
    ensures parts == [] ==> Concat(parts) == []
  {
  }

  lemma {:induction false} ConcatSplit(a: seq<Bytes>, b: seq<Bytes>)
    ensures Concat(a + b) == Concat(a) + Concat(b)
  {
    hide Concat;
    ConcatStep([]);
    if a == [] {
      assert a + b == b;
    } else {
      var rest := a[1..] + b;
      ConcatSplit(a[1..], b);
      ConcatStep(a);
      assert a + b == [a[0]] + rest;
      ConcatStep([a[0]] + rest);
      assert ([a[0]] + rest)[1..] == rest;
    }
  }

  lemma ConcatAppend(parts: seq<Bytes>, part: Bytes)
    ensures Concat(parts + [part]) == Concat(parts) + part
  {
    ConcatSplit(parts, [part]);
    assert Concat([part]) == part + Concat([]);
  }
}

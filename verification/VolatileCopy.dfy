/**
Copying between guest and host memory with naturally aligned accesses.  Memory is one array of bytes indexed by
address; a log records the width and the addresses of every access.
*/
module VolatileCopies {
  import opened Basics

  // ----- Alignment by bit twiddling -----

  function Pow2(n: nat): (r: nat)
    ensures r > 0
  {
    if n == 0 then 1 else 2 * Pow2(n - 1)
  }

  /** Bitwise and. */
  function And(a: nat, b: nat): nat {
    if a == 0 || b == 0 then 0 else (if a % 2 == 1 && b % 2 == 1 then 1 else 0) + 2 * And(a / 2, b / 2)
  }

  /** Bitwise complement of a 64-bit word. */
  function Not(a: nat): nat
    requires a < TWO64
  {
    TWO64 - 1 - a
  }

  function Alignment(addr: nat): nat
    requires addr < TWO64
  {
    And(addr, (Not(addr) + 1) % TWO64)
  }

  /** The lowest bit that is set. */
  function LowBit(a: nat): nat
    requires a > 0
  {
    if a % 2 == 1 then 1 else 2 * LowBit(a / 2)
  }

  /** Bitwise and, one bit at a time. */
  lemma AndStep(a: nat, b: nat)
    ensures a == 0 || b == 0 ==> And(a, b) == 0
    ensures a % 2 == 1 && b % 2 == 1 ==> And(a, b) == 1 + 2 * And(a / 2, b / 2)
    ensures a % 2 == 0 || b % 2 == 0 ==> And(a, b) == 2 * And(a / 2, b / 2)
  {
  }

  lemma {:induction false} AndComplement(w: nat, a: nat)
    requires a < Pow2(w)
    ensures And(a, Pow2(w) - 1 - a) == 0
    decreases w
  {
    hide And;
    var b := Pow2(w) - 1 - a;
    AndStep(a, b);
    if w > 0 {
      AndComplement(w - 1, a / 2);
      Complements(Pow2(w - 1), a);
    }
  }

  lemma Complements(p: nat, a: nat)
    requires a < 2 * p
    ensures (2 * p - 1 - a) / 2 == p - 1 - a / 2
    ensures a % 2 == 0 || (2 * p - 1 - a) % 2 == 0
    ensures a % 2 == 1 ==> (2 * p - a) % 2 == 1 && (2 * p - a) / 2 == p - 1 - a / 2
    ensures a % 2 == 0 ==> (2 * p - a) % 2 == 0 && (2 * p - a) / 2 == p - a / 2
  {
  }

  lemma {:induction false} AndNegated(w: nat, a: nat)
    requires 0 < a < Pow2(w)
    ensures And(a, Pow2(w) - a) == LowBit(a)
    decreases w
  {
    hide And;
    AndStep(a, Pow2(w) - a);
    Complements(Pow2(w - 1), a);
    if a % 2 == 1 {
      AndComplement(w - 1, a / 2);
    } else {
      AndNegated(w - 1, a / 2);
    }
  }

  lemma Pow2Step(n: nat)
    ensures n > 0 ==> Pow2(n) == 2 * Pow2(n - 1)
  {
  }

  lemma TimesTwo(p: nat, q: nat)
    ensures 2 * (p * q) == (2 * p) * q
  {
  }

  lemma {:induction false} Pow2Add(m: nat, n: nat)
    ensures Pow2(m + n) == Pow2(m) * Pow2(n)
  {
    if m > 0 {
      Pow2Add(m - 1, n);
      Pow2Step(m);
      Pow2Step(m + n);
      TimesTwo(Pow2(m - 1), Pow2(n));
    } else {
      assert Pow2(0) == 1;
    }
  }

  lemma Pow64()
    ensures Pow2(64) == TWO64
  {
    hide Pow2;
    Pow4();
    Pow2Add(4, 4);
    Pow2Add(8, 8);
    Pow2Add(16, 16);
    Pow2Add(32, 32);
  }

  lemma Pow4()
    ensures Pow2(4) == 16
  {
    assert Pow2(2) == 2 * Pow2(1) && Pow2(1) == 2 * Pow2(0);
  }

  lemma AlignmentIsLowBit(addr: nat)
    requires 0 < addr < TWO64
    ensures Alignment(addr) == LowBit(addr)
  {
    hide And, LowBit, Pow2;
    Pow64();
    Remainder(Not(addr) + 1, TWO64, 0, TWO64 - addr);
    AndNegated(64, addr);
  }

  lemma {:induction false} LowBitPower(a: nat) returns (k: nat)
    requires a > 0
    ensures LowBit(a) == Pow2(k) && a % Pow2(k) == 0
    decreases a
  {
    if a % 2 == 1 {
      k := 0;
    } else {
      var j := LowBitPower(a / 2);
      k := j + 1;
      var q := a / 2 / Pow2(j);
      assert a / 2 == Pow2(j) * q;
      assert a == Pow2(k) * q by { assert 2 * (Pow2(j) * q) == (2 * Pow2(j)) * q; }
      Remainder(a, Pow2(k), q, 0);
    }
  }

  lemma {:induction false} LowBitMaximal(a: nat, k: nat)
    requires a > 0 && a % Pow2(k) == 0
    ensures Pow2(k) <= LowBit(a)
    decreases k
  {
    LowBitReaches(a, 1);
    if k > 0 {
      var q := a / Pow2(k);
      assert a == 2 * (Pow2(k - 1) * q) by {
        assert a == Pow2(k) * q;
        assert (2 * Pow2(k - 1)) * q == 2 * (Pow2(k - 1) * q);
      }
      Remainder(a / 2, Pow2(k - 1), q, 0);
      LowBitMaximal(a / 2, k - 1);
    }
  }

  /** The expression is the largest power of two that divides the address. */
  lemma AlignmentIsLargest(addr: nat)
    requires 0 < addr < TWO64
    ensures exists k :: Alignment(addr) == Pow2(k) && addr % Pow2(k) == 0
    ensures forall k :: addr % Pow2(k) == 0 ==> Pow2(k) <= Alignment(addr)
  {
    hide Alignment, LowBit, Pow2;
    AlignmentIsLowBit(addr);
    var k := LowBitPower(addr);
    forall j | addr % Pow2(j) == 0 ensures Pow2(j) <= Alignment(addr) { LowBitMaximal(addr, j); }
  }

  predicate Width(k: nat) {
    k == 1 || k == 2 || k == 4 || k == 8
  }

  /** An address is aligned to an access width exactly when its alignment reaches it. */
  lemma AlignedIff(addr: nat, k: nat)
    requires 0 < addr < TWO64 && Width(k)
    ensures Alignment(addr) >= k <==> addr % k == 0
  {
    hide Alignment, LowBit;
    AlignmentIsLowBit(addr);
    LowBitReaches(addr, k);
  }

  lemma {:induction false} LowBitReaches(a: nat, k: nat)
    requires a > 0 && Width(k)
    ensures LowBit(a) >= 1 && (LowBit(a) >= k <==> a % k == 0)
    decreases a
  {
    if a % 2 == 1 {
      Halves(a);
    } else {
      LowBitReaches(a / 2, if k == 1 then 1 else k / 2);
      Halves(a);
    }
  }

  lemma Halves(a: nat)
    ensures a % 1 == 0
    ensures a % 2 == 1 ==> a % 4 != 0 && a % 8 != 0
    ensures a % 2 == 0 ==> (a % 4 == 0 <==> a / 2 % 2 == 0) && (a % 8 == 0 <==> a / 2 % 4 == 0)
  {
    Half(a, 2);
    Half(a, 4);
  }

  /** Dividing by `2 * m` leaves the lowest bit and twice what dividing the half by `m` leaves. */
  lemma Half(a: nat, m: nat)
    requires m > 0
    ensures a % (2 * m) == 2 * (a / 2 % m) + a % 2
  {
    var h := a / 2;
    assert h == m * (h / m) + h % m;
    assert 2 * (m * (h / m)) == (2 * m) * (h / m);
    Remainder(a, 2 * m, h / m, 2 * (h % m) + a % 2);
  }

  // ----- Copying -----

  datatype Access = Access(width: nat, src: nat, dst: nat)

  /** Reads and writes one naturally aligned word. */
  method CopySingle(mem: array<Byte>, k: nat, src: nat, dst: nat)
    requires Natural(k, src, dst)
    requires src + k <= mem.Length && dst + k <= mem.Length
    modifies mem
    ensures mem[..] == Copied(old(mem[..]), dst, src, k)
  {
    hide Natural;
    ghost var m0 := mem[..];
    forall i | 0 <= i < k {
      mem[dst + i] := mem[src + i];
    }
    CopiedAt(m0, mem[..], dst, src, k);
  }

  lemma CopiedAt(m: seq<Byte>, m': seq<Byte>, dst: nat, src: nat, n: nat)
    requires |m'| == |m| && src + n <= |m| && dst + n <= |m|
    requires forall i :: dst <= i < dst + n ==> m'[i] == m[src + (i - dst)]
    requires forall i :: 0 <= i < dst || dst + n <= i < |m| ==> m'[i] == m[i]
    ensures m' == Copied(m, dst, src, n)
  {
    var a, b, c := m[..dst], m[src..src + n], m[dst + n..];
    forall i | 0 <= i < |m| ensures (a + b + c)[i] == m'[i] {
      if i < dst {
        assert (a + b + c)[i] == a[i] == m[i];
      } else if i < dst + n {
        assert (a + b + c)[i] == b[i - dst] == m[src + (i - dst)];
      } else {
        assert (a + b + c)[i] == c[i - (dst + n)] == m[i];
      }
    }
    assert Copied(m, dst, src, n) == a + b + c;
  }

  /** Memory with `n` bytes copied from `src` to `dst`. */
  function Copied(m: seq<Byte>, dst: nat, src: nat, n: nat): (r: seq<Byte>)
    requires src + n <= |m| && dst + n <= |m|
    ensures |r| == |m|
  {
    m[..dst] + m[src..src + n] + m[dst + n..]
  }

  predicate Disjoint(a: nat, b: nat, n: nat) {
    a + n <= b || b + n <= a
  }

  lemma CopiedTwice(m: seq<Byte>, dst: nat, src: nat, n: nat, k: nat)
    requires src + n + k <= |m| && dst + n + k <= |m| && Disjoint(dst, src, n + k)
    ensures Copied(Copied(m, dst, src, n), dst + n, src + n, k) == Copied(m, dst, src, n + k)
  {
    var m1 := Copied(m, dst, src, n);
    assert m1[src + n..src + n + k] == m[src + n..src + n + k];
    assert m1[..dst + n] == m[..dst] + m[src..src + n];
    assert m1[dst + n + k..] == m[dst + n + k..];
    assert m[src..src + n] + m[src + n..src + n + k] == m[src..src + n + k];
  }

  /** Both ends of an access are multiples of its width. */
  predicate Natural(k: nat, src: nat, dst: nat) {
    && (k == 1 || k == 2 || k == 4 || k == 8)
    && (k == 2 ==> src % 2 == 0 && dst % 2 == 0)
    && (k == 4 ==> src % 4 == 0 && dst % 4 == 0)
    && (k == 8 ==> src % 8 == 0 && dst % 8 == 0)
  }

  predicate Aligned(log: seq<Access>) {
    forall i :: 0 <= i < |log| ==> Natural(log[i].width, log[i].src, log[i].dst)
  }

  /** How many bytes the accesses move together. */
  function Moved(log: seq<Access>): nat {
    if log == [] then 0 else Moved(log[..|log| - 1]) + log[|log| - 1].width
  }

  lemma MovedAppend(log: seq<Access>, a: Access)
    ensures Moved(log + [a]) == Moved(log) + a.width
  {
    assert (log + [a])[..|log|] == log;
  }

  function Rest(left: nat, k: nat): nat
    requires Width(k)
  {
    if k == 1 then 0 else if k == 2 then left % 2 else if k == 4 then left % 4 else left % 8
  }

  /** A copy in progress: `total - left` bytes are done; the pointers are past them unless nothing is left. */
  datatype Progress = Progress(src: nat, dst: nat, left: nat)

  ghost predicate Underway(m0: seq<Byte>, m: seq<Byte>, src: nat, dst: nat, total: nat, p: Progress) {
    && src + total <= |m0| && dst + total <= |m0| && Disjoint(dst, src, total)
    && p.left <= total
    && (p.left > 0 ==> p.src == src + (total - p.left) && p.dst == dst + (total - p.left))
    && m == Copied(m0, dst, src, total - p.left)
  }

  /** The closure of `copy_slice_volatile`, called with each width in turn. */
  method CopyAlignedSlice(mem: array<Byte>, k: nat, align: nat, p: Progress, log: seq<Access>,
                          ghost m0: seq<Byte>, ghost src0: nat, ghost dst0: nat, ghost total: nat)
    returns (q: Progress, log': seq<Access>)
    requires Width(k) && Underway(m0, mem[..], src0, dst0, total, p)
    requires align >= k && p.left > 0 ==> Natural(k, p.src, p.dst)
    modifies mem
    ensures Underway(m0, mem[..], src0, dst0, total, q)
    ensures Aligned(log) ==> Aligned(log')
    ensures Moved(log') + q.left == Moved(log) + p.left
    ensures align < k || p.left < k ==> q == p && log' == log
    ensures align >= k ==> q.left == Rest(p.left, k) && (q.left > 0 ==> Natural(k, q.src, q.dst))
    ensures align >= k && p.left == k ==> log' == log + [Access(k, p.src, p.dst)]
  {
    hide Copied, Natural, Rest, Moved;
    q, log' := p, log;
    if align < k {
      return;
    }
    while q.left >= k
      invariant Underway(m0, mem[..], src0, dst0, total, q) && mem.Length == |m0|
      invariant Rest(q.left, k) == Rest(p.left, k) && q.left <= p.left && (q.left == p.left ==> q == p && log' == log)
      invariant q.left > 0 ==> Natural(k, q.src, q.dst)
      invariant p.left < k ==> q == p && log' == log
      invariant Aligned(log) ==> Aligned(log')
      invariant Moved(log') + q.left == Moved(log) + p.left
      invariant p.left == k && q.left < k ==> log' == log + [Access(k, p.src, p.dst)]
      decreases q.left
    {
      CopiedTwice(m0, dst0, src0, total - q.left, k);
      CopySingle(mem, k, q.src, q.dst);
      MovedAppend(log', Access(k, q.src, q.dst));
      log' := log' + [Access(k, q.src, q.dst)];
      Stepped(q.left, q.src, q.dst, k);
      q := q.(left := q.left - k);
      if q.left == 0 {
        break;
      }
      q := q.(src := q.src + k, dst := q.dst + k);
    }
    Finished(q.left, k);
  }

  lemma Stepped(left: nat, src: nat, dst: nat, k: nat)
    requires Width(k) && k <= left && Natural(k, src, dst)
    ensures Rest(left - k, k) == Rest(left, k) && Natural(k, src + k, dst + k)
  {
    OneWidthOn(left - k);
    OneWidthOn(src);
    OneWidthOn(dst);
  }

  lemma OneWidthOn(a: nat)
    ensures (a + 2) % 2 == a % 2 && (a + 4) % 4 == a % 4 && (a + 8) % 8 == a % 8
  {
    Remainder(a + 2, 2, a / 2 + 1, a % 2);
    Remainder(a + 4, 4, a / 4 + 1, a % 4);
    Remainder(a + 8, 8, a / 8 + 1, a % 8);
  }

  lemma Finished(left: nat, k: nat)
    requires Width(k) && left < k
    ensures Rest(left, k) == left
  {
  }

  /**
  Copies `total` bytes with a loop of aligned accesses of 8, then 4, then 2, then 1 bytes: byte for byte what a
  plain copy does.  A copy of 1, 2, 4 or 8 bytes that is aligned to its size is a single access.
  */
  method CopySliceVolatile(mem: array<Byte>, dst: nat, src: nat, total: nat) returns (log: seq<Access>)
    requires 0 < src && 0 < dst && src + total <= mem.Length <= TWO64 && dst + total <= mem.Length
    requires src < TWO64 && dst < TWO64 && Disjoint(dst, src, total)
    modifies mem
    ensures mem[..] == Copied(old(mem[..]), dst, src, total)
    ensures Aligned(log) && Moved(log) == total
    ensures Width(total) && Natural(total, src, dst) ==> log == [Access(total, src, dst)]
  {
    hide Copied, Alignment, Natural, Rest, Underway;
    ghost var m0 := mem[..];
    var align := Min(Alignment(src), Alignment(dst));
    AlignedForAll(src, dst);
    NoRest();
    var p := Progress(src, dst, total);
    log := [];
    Begins(m0, dst, src, total);
    p, log := CopyAlignedSlice(mem, 8, align, p, log, m0, src, dst, total);
    Narrower(p.src, p.dst);
    p, log := CopyAlignedSlice(mem, 4, align, p, log, m0, src, dst, total);
    Narrower(p.src, p.dst);
    p, log := CopyAlignedSlice(mem, 2, align, p, log, m0, src, dst, total);
    Narrower(p.src, p.dst);
    p, log := CopyAlignedSlice(mem, 1, align, p, log, m0, src, dst, total);
    Ends(m0, mem[..], src, dst, total, p);
  }

  /** Small copies go word by word, large ones through the host's copy routine. */
  method CopySlice(mem: array<Byte>, dst: nat, src: nat, total: nat) returns (log: seq<Access>)
    requires 0 < src && 0 < dst && src + total <= mem.Length <= TWO64 && dst + total <= mem.Length
    requires src < TWO64 && dst < TWO64 && Disjoint(dst, src, total)
    modifies mem
    ensures mem[..] == Copied(old(mem[..]), dst, src, total)
    ensures total <= 8 ==> Aligned(log) && Moved(log) == total
    ensures Width(total) && Natural(total, src, dst) ==> log == [Access(total, src, dst)]
  {
    hide Natural, Moved;
    if total <= 8 {
      log := CopySliceVolatile(mem, dst, src, total);
    } else {
      log := [];
      forall i | 0 <= i < total {
        mem[dst + i] := mem[src + i];
      }
      assert mem[..] == Copied(old(mem[..]), dst, src, total);
    }
  }

  lemma NoRest()
    ensures forall k :: Width(k) ==> Rest(k, k) == 0
    ensures forall n :: Rest(n, 1) == 0
    ensures forall src, dst :: Natural(1, src, dst)
  {
  }

  lemma Narrower(src: nat, dst: nat)
    ensures Natural(8, src, dst) ==> Natural(4, src, dst)
    ensures Natural(4, src, dst) ==> Natural(2, src, dst)
  {
    Multiples(src);
    Multiples(dst);
  }

  lemma Multiples(a: nat)
    ensures a % 8 == 0 ==> a % 4 == 0
    ensures a % 4 == 0 ==> a % 2 == 0
  {
    if a % 8 == 0 { Remainder(a, 4, 2 * (a / 8), 0); }
    if a % 4 == 0 { Remainder(a, 2, 2 * (a / 4), 0); }
  }

  lemma Begins(m: seq<Byte>, dst: nat, src: nat, total: nat)
    requires src + total <= |m| && dst + total <= |m| && Disjoint(dst, src, total)
    ensures Underway(m, m, src, dst, total, Progress(src, dst, total))
  {
    NothingCopied(m, dst, src);
  }

  lemma Ends(m0: seq<Byte>, m: seq<Byte>, src: nat, dst: nat, total: nat, p: Progress)
    requires Underway(m0, m, src, dst, total, p) && p.left == 0
    ensures src + total <= |m0| && dst + total <= |m0| && m == Copied(m0, dst, src, total)
  {
  }

  lemma NothingCopied(m: seq<Byte>, dst: nat, src: nat)
    requires src <= |m| && dst <= |m|
    ensures Copied(m, dst, src, 0) == m
  {
  }

  lemma AlignedForAll(src: nat, dst: nat)
    requires 0 < src < TWO64 && 0 < dst < TWO64
    ensures forall k :: Width(k) ==> (Min(Alignment(src), Alignment(dst)) >= k <==> Natural(k, src, dst))
  {
    hide Alignment;
    forall k | Width(k) ensures Min(Alignment(src), Alignment(dst)) >= k <==> Natural(k, src, dst) {
      AlignedIff(src, k);
      AlignedIff(dst, k);
    }
  }
}

/**
Tables that count their nodes in the header but keep their running checksum by adding 1 per node: how far that
sum is from the sum of the count's bytes.
*/
module CountedTables {
  import opened Basics
  import opened ByteStrings
  import opened Checksums

  /** What the bytes of a count above the lowest one add up to. */
  function UpperBytes(n: nat, width: nat): nat {
    if width <= 1 then 0 else Sum(Le(n / 256, width - 1))
  }

  lemma CountGap(n: nat, width: nat)
    requires 1 <= width
    ensures Congruent(Sum(Le(n, width)), n + UpperBytes(n, width))
  {
    hide Sum, Le, Congruent;
    LowAndUpper(n, width);
    LowByte(n, UpperBytes(n, width));
  }

  lemma LowAndUpper(n: nat, width: nat)
    requires 1 <= width
    ensures Sum(Le(n, width)) == n % 256 + UpperBytes(n, width)
  {
    hide Sum;
    LeStep(n, width);
    SumConcat([n % 256], Le(n / 256, width - 1));
    SumOne(n % 256);
    SumNothing();
  }

  lemma LeStep(n: nat, width: nat)
    requires 1 <= width
    ensures Le(n, width) == [n % 256] + Le(n / 256, width - 1)
  {
  }

  lemma LowByte(n: nat, upper: nat)
    ensures Congruent(n % 256 + upper, n + upper)
  {
    CongruentBy(n % 256 + upper, n + upper, -(n / 256));
  }

  /** `rest` is the sum of all but the checksum and the count; `count` that of the count's bytes. */
  lemma GapIff(total: int, checksum: Byte, rest: int, n: nat, count: int, upper: nat)
    requires Congruent(total, rest + n) && (total + checksum) % 256 == 0 && Congruent(count, n + upper)
    ensures (rest + checksum + count) % 256 == 0 <==> upper % 256 == 0
  {
    var q := Quotient(total, rest + n);
    var p := Quotient(count, n + upper);
    CongruentBy(rest + checksum + count, upper, (total + checksum) / 256 - q + p);
  }

  /** Up to 255 nodes nothing is missing. */
  lemma SmallCounts(n: nat, width: nat)
    requires n < 256
    ensures UpperBytes(n, width) == 0
  {
    if width > 1 { ZeroBytes(width - 1); }
  }

  lemma {:induction false} ZeroBytes(width: nat)
    ensures Sum(Le(0, width)) == 0
  {
    if width > 0 { ZeroBytes(width - 1); }
  }

  /** From 256 to 65535 nodes something always is. */
  lemma MediumCounts(n: nat, width: nat)
    requires 256 <= n < 0x1_0000 && width >= 2
    ensures UpperBytes(n, width) % 256 != 0
  {
    var hi := n / 256;
    assert Le(hi, width - 1) == [hi % 256] + Le(hi / 256, width - 2);
    SumConcat([hi % 256], Le(hi / 256, width - 2));
    ZeroBytes(width - 2);
  }
}

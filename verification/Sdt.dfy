/** A table as a plain buffer that is written and appended to freely. */
module Sdts {
  import opened Basics
  import opened ByteStrings
  import opened Checksums
  import opened TableHeaders

  const CHECKSUM_AT: nat := 9

  /** Equal but for the checksum byte. */
  predicate SameContents(a: Bytes, b: Bytes) {
    |a| == |b| && forall i :: 0 <= i < |a| && i != CHECKSUM_AT ==> a[i] == b[i]
  }

  function Patched(b: Bytes, at: nat, data: Bytes): (r: Bytes)
    requires at + |data| <= |b|
    ensures |r| == |b|
  {
    b[..at] + data + b[at + |data|..]
  }

  class Sdt {
    var data: Bytes

    /** Large enough for a header, and summing to zero. */
    ghost predicate Valid()
      reads this
    {
      |data| >= HEADER_LEN && ZeroSum(data)
    }

    constructor (kind: Kind, length: nat, oem: Oem)
      requires |kind.signature| == 4 && ValidOem(oem) && HEADER_LEN <= length < TWO32
      ensures Valid() && |data| == length && SameContents(data[..HEADER_LEN], Header(kind, length, 0, oem))
      ensures forall i :: HEADER_LEN <= i < length ==> data[i] == 0
    {
      data := Header(kind, length, 0, oem) + seq(length - HEADER_LEN, _ => 0);
      new;
      UpdateChecksum();
    }

    method UpdateChecksum()
      requires |data| >= HEADER_LEN
      modifies this
      ensures Valid() && SameContents(data, old(data))
    {
      hide Sum;
      var zeroed := Patched(data, CHECKSUM_AT, [0]);
      var checksum := GenerateChecksum(zeroed);
      SumUpdate(zeroed, CHECKSUM_AT, checksum);
      data := Patched(zeroed, CHECKSUM_AT, [checksum]);
    }

    method WriteBytes(offset: nat, bytes: Bytes)
      requires |data| >= HEADER_LEN && offset + |bytes| <= |data|
      modifies this
      ensures Valid() && SameContents(data, Patched(old(data), offset, bytes))
    {
      data := Patched(data, offset, bytes);
      UpdateChecksum();
    }

    /** Appends a value; the length field becomes the new length. */
    method Append(value: Bytes)
      requires Valid() && |data| + |value| < TWO32
      modifies this
      ensures Valid() && |data| == |old(data)| + |value| && FromLe(data[4..8]) == |data|
      ensures SameContents(data, Patched(old(data), 4, Le(|data|, 4)) + value)
    {
      hide Le, ZeroSum;
      var origLength := |data|;
      var newLength := origLength + |value|;
      data := data + seq(|value|, _ => 0);
      WriteBytes(4, Le(newLength, 4));
      ghost var mid := data;
      WriteBytes(origLength, value);
      AppendContents(old(data), Le(newLength, 4), value, mid, data);
      assert data[4..8] == Le(newLength, 4);
      LengthField(newLength);
    }

    method AppendSlice(bytes: Bytes)
      requires Valid() && |data| + |bytes| < TWO32
      modifies this
      ensures Valid() && |data| == |old(data)| + |bytes| && FromLe(data[4..8]) == |data|
      ensures SameContents(data, Patched(old(data), 4, Le(|data|, 4)) + bytes)
    {
      hide Le, ZeroSum;
      var origLength := |data|;
      var newLength := origLength + |bytes|;
      WriteBytes(4, Le(newLength, 4));
      data := data + bytes;
      UpdateChecksum();
      assert data[4..8] == Le(newLength, 4);
      LengthField(newLength);
    }
  }

  lemma AppendContents(before: Bytes, length: Bytes, value: Bytes, mid: Bytes, after: Bytes)
    requires |before| >= HEADER_LEN && |length| == 4
    requires SameContents(mid, Patched(before + seq(|value|, _ => 0), 4, length))
    requires SameContents(after, Patched(mid, |before|, value))
    ensures SameContents(after, Patched(before, 4, length) + value)
  {
    forall i | 0 <= i < |after| && i != CHECKSUM_AT ensures after[i] == (Patched(before, 4, length) + value)[i] {
      assert after[i] == Patched(mid, |before|, value)[i];
      if i < |before| { assert mid[i] == Patched(before + seq(|value|, _ => 0), 4, length)[i]; }
    }
  }

  lemma LengthField(n: nat)
    requires n < TWO32
    ensures FromLe(Le(n, 4)) == n
  {
    Powers();
    LeRoundTrip(n, 4);
  }
}

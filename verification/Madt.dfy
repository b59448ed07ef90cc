/** The multiple APIC description table. */
module Madts {
  import opened Basics
  import opened ByteStrings
  import opened Checksums
  import opened TableHeaders

  const MADT: Kind := Kind([0x41, 0x50, 0x49, 0x43], 1)
  const BASE: nat := 44

  function MadtHeader(oem: Oem, address: nat, length: nat, checksum: Byte, flags: nat): (r: Bytes)
    requires ValidOem(oem)
    ensures |r| == BASE
  {
    Header(MADT, length, checksum, oem) + Le(address, 4) + Le(flags, 4)
  }

  lemma MadtHeaderLayout(oem: Oem, address: nat, length: nat, checksum: Byte, flags: nat)
    requires ValidOem(oem)
    ensures var r := MadtHeader(oem, address, length, checksum, flags);
            && r[..HEADER_LEN] == Header(MADT, length, checksum, oem)
            && (Field(r, 36, 4) == address <==> address < TWO32) && (Field(r, 40, 4) == flags <==> flags < TWO32)
  {
    hide Le, Header;
    Powers();
    var r := MadtHeader(oem, address, length, checksum, flags);
    FieldReadsIff(r, 36, 4, address);
    FieldReadsIff(r, 40, 4, flags);
  }

  lemma SignatureIs()
    ensures MADT.signature == Text("APIC")
  {
    var t := Text("APIC");
    assert t[0] == 0x41 && t[1] == 0x50 && t[2] == 0x49 && t[3] == 0x43;
  }

  ghost function Fixed(oem: Oem, address: nat): nat
    requires ValidOem(oem)
  {
    FixedSum(MADT, oem) + Sum(Le(address, 4))
  }

  lemma MadtHeaderSum(oem: Oem, address: nat, length: nat, checksum: Byte, flags: nat)
    requires ValidOem(oem)
    ensures Sum(MadtHeader(oem, address, length, checksum, flags)) ==
            Fixed(oem, address) + Sum(Le(length, 4)) + checksum + Sum(Le(flags, 4))
  {
    hide Le;
    var a := Header(MADT, length, checksum, oem);
    HeaderSum(MADT, length, checksum, oem);
    SumConcat(a, Le(address, 4));
    SumConcat(a + Le(address, 4), Le(flags, 4));
  }

  class Madt {
    const oem: Oem
    const address: nat
    var length: nat
    var checksumByte: Byte
    var flags: nat
    const checksum: Checksum
    var structures: seq<Bytes>
    var hasImsic: bool

    ghost function Emitted(): Bytes
      requires ValidOem(oem)
      reads this
    {
      MadtHeader(oem, address, length, checksumByte, flags) + Concat(structures)
    }

    ghost predicate Valid()
      reads this, checksum
    {
      && ValidOem(oem) && checksum.Valid() && length == |Emitted()| && length < TWO32 && flags < 2
      && checksum.total == Fixed(oem, address) + Sum(Le(length, 4)) + Sum(Le(flags, 4)) + Sum(Concat(structures))
      && (checksum.total + checksumByte) % 256 == 0
    }

    /** `address_` is zero for the RISC-V interrupt controller. */
    constructor (oem_: Oem, address_: nat)
      requires ValidOem(oem_)
      ensures Valid() && structures == [] && flags == 0 && !hasImsic && fresh(checksum)
      ensures oem == oem_ && address == address_
    {
      hide Le, Sum, Fixed;
      SumNothing();
      var cksum := new Checksum();
      cksum.Append(MadtHeader(oem_, address_, BASE, 0, 0));
      MadtHeaderSum(oem_, address_, BASE, 0, 0);
      oem, address, length, flags, structures, hasImsic := oem_, address_, BASE, 0, [], false;
      checksum, checksumByte := cksum, 0;
      new;
      checksumByte := checksum.Value();
    }

    /** The header of the emitted table holds what the caller gave, and the flags. */
    lemma HeaderHolds()
      requires Valid()
      ensures StartsAs(Emitted(), "APIC", 1, oem) && |Emitted()| >= 44
      ensures Field(Emitted(), 36, 4) == address <==> address < TWO32
      ensures Field(Emitted(), 40, 4) == flags
    {
      hide Le, Concat, Field, Sum, StartsAs, Header;
      var front := MadtHeader(oem, address, length, checksumByte, flags);
      var more := Le(address, 4) + Le(flags, 4);
      assert Emitted() == Header(MADT, length, checksumByte, oem) + (more + Concat(structures));
      SignatureIs();
      TableStarts(MADT, length, checksumByte, oem, more + Concat(structures), "APIC");
      MadtHeaderLayout(oem, address, length, checksumByte, flags);
      FieldInFront(front, Concat(structures), 36, 4);
      FieldInFront(front, Concat(structures), 40, 4);
    }

    lemma SumsToZero()
      requires Valid()
      ensures ZeroSum(Emitted())
    {
      hide Le, Fixed;
      MadtHeaderSum(oem, address, length, checksumByte, flags);
      SumConcat(MadtHeader(oem, address, length, checksumByte, flags), Concat(structures));
    }

    /** Sets the only flag there is, bit 0. */
    method SetPcAtCompat()
      requires Valid()
      modifies this`flags, this`checksumByte, checksum
      ensures Valid() && ZeroSum(Emitted()) && flags == 1
    {
      hide Le, Fixed, Sum, Concat, ZeroSum;
      var oldFlags := flags;
      flags := if flags % 2 == 1 then flags else flags + 1;
      checksum.Delete(Le(oldFlags, 4));
      checksum.Append(Le(flags, 4));
      checksumByte := checksum.Value();
      SumsToZero();
    }

    method UpdateHeader(data: Bytes)
      requires checksum.Valid() && length + |data| < TWO32
      modifies this`length, this`checksumByte, checksum
      ensures checksum.Valid() && length == old(length) + |data|
      ensures checksum.total == old(checksum.total) + Sum(data) + Sum(Le(length, 4)) - Sum(Le(old(length), 4))
      ensures (checksum.total + checksumByte) % 256 == 0
    {
      hide Le, Sum;
      var oldLen := length;
      var newLen := |data| + oldLen;
      length := newLen;
      checksum.Delete(Le(oldLen, 4));
      checksum.Append(Le(newLen, 4));
      checksum.Append(data);
      checksumByte := checksum.Value();
    }

    method AddStructure(t: Bytes)
      requires Valid() && length + |t| < TWO32
      modifies this`length, this`checksumByte, this`structures, checksum
      ensures Valid() && ZeroSum(Emitted()) && structures == old(structures) + [t]
    {
      hide Le, Fixed, Sum, Concat, ZeroSum;
      ConcatAppend(structures, t);
      SumConcat(Concat(structures), t);
      UpdateHeader(t);
      structures := structures + [t];
      SumsToZero();
    }

    /** A second IMSIC is a panic. */
    method AddImsic(imsic: Bytes)
      requires Valid() && !hasImsic && length + |imsic| < TWO32
      modifies this, checksum
      ensures Valid() && ZeroSum(Emitted()) && structures == old(structures) + [imsic] && hasImsic
    {
      hide Le, Fixed, Sum, Concat, ZeroSum;
      AddStructure(imsic);
      hasImsic := true;
    }

    method ToAmlBytes() returns (r: Bytes)
      requires Valid()
      ensures r == Emitted() && |r| == length && ZeroSum(r)
    {
      hide Le, Sum, Fixed, ZeroSum;
      r := EmitNodes(MadtHeader(oem, address, length, checksumByte, flags), structures);
      SumsToZero();
    }
  }
}

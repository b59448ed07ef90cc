/** The RISC-V I/O mapping table. */
module Rimts {
  import opened Basics
  import opened ByteStrings
  import opened Checksums
  import opened TableHeaders
  import opened CountedTables
  import opened PciDevices

  const RIMT: Kind := Kind([0x52, 0x49, 0x4d, 0x54], 1)
  const BASE: nat := 48

  function RimtHeader(oem: Oem, length: nat, checksum: Byte, devices: nat): (r: Bytes)
    requires ValidOem(oem)
    ensures |r| == BASE
  {
    Header(RIMT, length, checksum, oem) + Le(devices, 4) + Le(BASE, 4) + Le(0, 4)
  }

  lemma RimtHeaderLayout(oem: Oem, length: nat, checksum: Byte, devices: nat)
    requires ValidOem(oem)
    ensures var r := RimtHeader(oem, length, checksum, devices);
            && r[..HEADER_LEN] == Header(RIMT, length, checksum, oem)
            && (Field(r, 36, 4) == devices <==> devices < TWO32) && Field(r, 40, 4) == |r| && Field(r, 44, 4) == 0
  {
    hide Le, Header;
    Powers();
    var r := RimtHeader(oem, length, checksum, devices);
    FieldReadsIff(r, 36, 4, devices);
    FieldReads(r, 40, 4, BASE);
    var a := Header(RIMT, length, checksum, oem) + Le(devices, 4) + Le(BASE, 4);
    assert r == a + Le(0, 4) && |a| == 44 && (a + Le(0, 4))[44..] == Le(0, 4);
    assert r[..48] == r && r[44..48] == r[..48][44..];
    FieldReads(r, 44, 4, 0);
  }

  lemma SignatureIs()
    ensures RIMT.signature == Text("RIMT")
  {
    var t := Text("RIMT");
    assert t[0] == 0x52 && t[1] == 0x49 && t[2] == 0x4d && t[3] == 0x54;
  }

  ghost function Fixed(oem: Oem): nat
    requires ValidOem(oem)
  {
    FixedSum(RIMT, oem) + Sum(Le(BASE, 4))
  }

  lemma RimtHeaderSum(oem: Oem, length: nat, checksum: Byte, devices: nat)
    requires ValidOem(oem)
    ensures Sum(RimtHeader(oem, length, checksum, devices)) ==
            Fixed(oem) + Sum(Le(length, 4)) + checksum + Sum(Le(devices, 4))
  {
    hide Le;
    var a := Header(RIMT, length, checksum, oem);
    HeaderSum(RIMT, length, checksum, oem);
    SumConcat(a, Le(devices, 4));
    SumConcat(a + Le(devices, 4), Le(BASE, 4));
    SumConcat(a + Le(devices, 4) + Le(BASE, 4), Le(0, 4));
    ZeroBytes(4);
  }

  // ----- Devices -----

  function Flag(set_: bool, bit: nat): nat {
    if set_ then bit else 0
  }

  datatype InterruptWire = InterruptWire(num: nat, levelTrig: bool, polarityHigh: bool, aplicId: nat)

  function WireBytes(w: InterruptWire): (r: Bytes)
    ensures |r| == 8
  {
    Le(w.num, 4) + Le(Flag(w.levelTrig, 1) + Flag(w.polarityHigh, 2), 2) + Le(w.aplicId, 2)
  }

  lemma WireLayout(w: InterruptWire)
    requires w.num < TWO32 && w.aplicId < 0x1_0000
    ensures var r := WireBytes(w);
            && Field(r, 0, 4) == w.num && Field(r, 6, 2) == w.aplicId
            && (Field(r, 4, 2) % 2 == 1 <==> w.levelTrig) && (Field(r, 4, 2) / 2 % 2 == 1 <==> w.polarityHigh)
  {
    hide Le;
    Powers();
    var r := WireBytes(w);
    FieldReads(r, 0, 4, w.num);
    FieldReads(r, 4, 2, Flag(w.levelTrig, 1) + Flag(w.polarityHigh, 2));
    FieldReads(r, 6, 2, w.aplicId);
  }

  function Wires(ws: seq<InterruptWire>): (r: Bytes)
    ensures |r| == 8 * |ws|
  {
    if ws == [] then [] else WireBytes(ws[0]) + Wires(ws[1..])
  }

  lemma {:induction false} WireAt(ws: seq<InterruptWire>, k: nat)
    requires k < |ws|
    ensures Wires(ws)[8 * k..8 * k + 8] == WireBytes(ws[k])
  {
    hide WireBytes;
    if k > 0 {
      WireAt(ws[1..], k - 1);
      assert Wires(ws)[8 * k..8 * k + 8] == Wires(ws[1..])[8 * (k - 1)..8 * (k - 1) + 8];
    }
  }

  datatype Iommu = Iommu(
    id: nat, baseAddr: Option<nat>, pci: Option<PciDevice>, proximity: Option<nat>, wires: Option<seq<InterruptWire>>)

  function OrZero(o: Option<nat>): nat {
    if o.Some? then o.value else 0
  }

  function IommuLen(i: Iommu): nat {
    32 + 8 * if i.wires.Some? then |i.wires.value| else 0
  }

  function IommuNode(i: Iommu): (r: Bytes)
    ensures |r| == IommuLen(i) && Announces(r, 2, 2)
  {
    var wires := if i.wires.Some? then i.wires.value else [];
    NodeBytes([0, 1], IommuLen(i), IommuHead(i) + Le(|wires|, 2) + Le(32, 2) + Wires(wires))
  }

  function IommuHead(i: Iommu): (r: Bytes)
    ensures |r| == 24
  {
    Le(i.id, 2) + Le(0, 2) + Le(OrZero(i.baseAddr), 8) + Le(Flag(i.pci.Some?, 1) + Flag(i.proximity.Some?, 2), 4)
    + Le(if i.pci.Some? then i.pci.value.segment else 0, 2) + Le(if i.pci.Some? then Bdf(i.pci.value) else 0, 2)
    + Le(OrZero(i.proximity), 4)
  }

  lemma IommuLayout(i: Iommu)
    requires i.id < 0x1_0000 && OrZero(i.baseAddr) < TWO64 && OrZero(i.proximity) < TWO32
    requires i.pci.Some? ==> ValidPci(i.pci.value) && i.pci.value.segment < 0x1_0000
    requires i.wires.Some? ==> |i.wires.value| < 0x1_0000
    ensures var r := IommuNode(i);
            && r[0] == 0 && r[1] == 1 && Field(r, 4, 2) == i.id && Field(r, 8, 8) == OrZero(i.baseAddr)
            && (Field(r, 16, 4) % 2 == 1 <==> i.pci.Some?) && (Field(r, 16, 4) / 2 % 2 == 1 <==> i.proximity.Some?)
            && (i.pci.Some? ==> Field(r, 20, 2) == i.pci.value.segment && Field(r, 22, 2) == Bdf(i.pci.value))
            && Field(r, 24, 4) == OrZero(i.proximity) && Field(r, 30, 2) == 32
            && (i.wires.Some? ==> Field(r, 28, 2) == |i.wires.value| && r[32..] == Wires(i.wires.value))
  {
    hide Le, Wires, IommuNode, IommuHead, Bdf;
    Powers();
    var r := IommuNode(i);
    IommuParts(i);
    FieldReads(r, 4, 2, i.id);
    FieldReads(r, 8, 8, OrZero(i.baseAddr));
    FieldReads(r, 16, 4, Flag(i.pci.Some?, 1) + Flag(i.proximity.Some?, 2));
    FieldReads(r, 24, 4, OrZero(i.proximity));
    FieldReads(r, 28, 2, if i.wires.Some? then |i.wires.value| else 0);
    FieldReads(r, 30, 2, 32);
    if i.pci.Some? {
      BdfFits(i.pci.value);
      FieldReads(r, 20, 2, i.pci.value.segment);
      FieldReads(r, 22, 2, Bdf(i.pci.value));
    }
  }

  lemma IommuHeadParts(i: Iommu)
    ensures var h := IommuHead(i);
            && h[0..2] == Le(i.id, 2) && h[4..12] == Le(OrZero(i.baseAddr), 8)
            && h[12..16] == Le(Flag(i.pci.Some?, 1) + Flag(i.proximity.Some?, 2), 4)
            && (i.pci.Some? ==> h[16..18] == Le(i.pci.value.segment, 2) && h[18..20] == Le(Bdf(i.pci.value), 2))
            && h[20..24] == Le(OrZero(i.proximity), 4)
  {
    hide Le, Bdf;
  }

  lemma IommuParts(i: Iommu)
    ensures var r, wires := IommuNode(i), if i.wires.Some? then i.wires.value else [];
            && r[0] == 0 && r[1] == 1
            && r[4..6] == Le(i.id, 2) && r[8..16] == Le(OrZero(i.baseAddr), 8)
            && r[16..20] == Le(Flag(i.pci.Some?, 1) + Flag(i.proximity.Some?, 2), 4)
            && (i.pci.Some? ==> r[20..22] == Le(i.pci.value.segment, 2) && r[22..24] == Le(Bdf(i.pci.value), 2))
            && r[24..28] == Le(OrZero(i.proximity), 4)
            && r[28..30] == Le(|wires|, 2) && r[30..32] == Le(32, 2) && r[32..] == Wires(wires)
  {
    hide Le, Wires, Bdf, IommuHead;
    IommuHeadParts(i);
    var r, h, wires := IommuNode(i), IommuHead(i), if i.wires.Some? then i.wires.value else [];
    assert r[4..] == h + Le(|wires|, 2) + Le(32, 2) + Wires(wires);
    assert r[4..28] == h;
    SliceOfSlice(r, 4, 28, 0, 2);
    SliceOfSlice(r, 4, 28, 4, 12);
    SliceOfSlice(r, 4, 28, 12, 16);
    SliceOfSlice(r, 4, 28, 16, 18);
    SliceOfSlice(r, 4, 28, 18, 20);
    SliceOfSlice(r, 4, 28, 20, 24);
    assert r[28..30] == r[4..][24..26] && r[30..32] == r[4..][26..28] && r[32..] == r[4..][28..];
  }

  datatype IdMapping = IdMapping(src: nat, dst: nat, count: nat, iommu: nat, ats: bool, pri: bool, rciep: bool)

  function MappingBytes(m: IdMapping): (r: Bytes)
    ensures |r| == 20
  {
    Le(m.src, 4) + Le(m.dst, 4) + Le(m.count, 4) + Le(m.iommu, 4)
    + Le(Flag(m.ats, 1) + Flag(m.pri, 2) + Flag(m.rciep, 4), 4)
  }

  lemma MappingLayout(m: IdMapping)
    requires m.src < TWO32 && m.dst < TWO32 && m.count < TWO32 && m.iommu < TWO32
    ensures var r := MappingBytes(m);
            && Field(r, 0, 4) == m.src && Field(r, 4, 4) == m.dst && Field(r, 8, 4) == m.count
            && Field(r, 12, 4) == m.iommu
            && (Field(r, 16, 4) % 2 == 1 <==> m.ats) && (Field(r, 16, 4) / 2 % 2 == 1 <==> m.pri)
            && (Field(r, 16, 4) / 4 % 2 == 1 <==> m.rciep)
  {
    hide Le;
    Powers();
    var r := MappingBytes(m);
    FieldReads(r, 0, 4, m.src);
    FieldReads(r, 4, 4, m.dst);
    FieldReads(r, 8, 4, m.count);
    FieldReads(r, 12, 4, m.iommu);
    FieldReads(r, 16, 4, Flag(m.ats, 1) + Flag(m.pri, 2) + Flag(m.rciep, 4));
  }

  function Mappings(ms: seq<IdMapping>): (r: Bytes)
    ensures |r| == 20 * |ms|
  {
    if ms == [] then [] else MappingBytes(ms[0]) + Mappings(ms[1..])
  }

  lemma {:induction false} MappingAt(ms: seq<IdMapping>, k: nat)
    requires k < |ms|
    ensures Mappings(ms)[20 * k..20 * k + 20] == MappingBytes(ms[k])
  {
    hide MappingBytes, Le;
    if k > 0 {
      MappingAt(ms[1..], k - 1);
      assert Mappings(ms)[20 * k..20 * k + 20] == Mappings(ms[1..])[20 * (k - 1)..20 * (k - 1) + 20];
    }
  }

  lemma MappingIommu(m: IdMapping)
    ensures MappingBytes(m)[12..16] == Le(m.iommu, 4)
  {
    hide Le;
  }

  lemma MappingIommuAt(ms: seq<IdMapping>, k: nat)
    requires k < |ms|
    ensures Mappings(ms)[20 * k + 12..20 * k + 16] == Le(ms[k].iommu, 4)
  {
    hide MappingBytes, Mappings, Le;
    MappingAt(ms, k);
    MappingIommu(ms[k]);
    SliceOfSlice(Mappings(ms), 20 * k, 20 * k + 20, 12, 16);
  }

  datatype PcieRootComplex =
    PcieRootComplex(id: nat, segment: nat, ats: bool, pri: bool, mappings: Option<seq<IdMapping>>)

  function PcieLen(p: PcieRootComplex): nat {
    16 + 20 * if p.mappings.Some? then |p.mappings.value| else 0
  }

  function PcieNode(p: PcieRootComplex): (r: Bytes)
    ensures |r| == PcieLen(p) && Announces(r, 2, 2)
  {
    var mappings := if p.mappings.Some? then p.mappings.value else [];
    NodeBytes([1, 1], PcieLen(p),
         Le(p.id, 2) + Le(p.segment, 2) + Le(Flag(p.ats, 1) + Flag(p.pri, 2), 4) + Le(16, 2) + Le(|mappings|, 2)
         + Mappings(mappings))
  }

  /** Mappings start at byte 16; each names its IOMMU at byte 12. */
  lemma PcieIommu(p: PcieRootComplex, k: nat)
    requires p.mappings.Some? && k < |p.mappings.value|
    ensures PcieNode(p)[16 + 20 * k + 12..16 + 20 * k + 16] == Le(p.mappings.value[k].iommu, 4)
  {
    hide Le, Mappings;
    MappingIommuAt(p.mappings.value, k);
    var r := PcieNode(p);
    assert r[4..][12..] == Mappings(p.mappings.value);
    assert r[16 + 20 * k + 12..16 + 20 * k + 16] == r[4..][12..][20 * k + 12..20 * k + 16];
  }

  lemma PcieLayout(p: PcieRootComplex)
    requires p.id < 0x1_0000 && p.segment < 0x1_0000 && (p.mappings.Some? ==> |p.mappings.value| < 0x1_0000)
    ensures var r := PcieNode(p);
            && r[0] == 1 && r[1] == 1 && Field(r, 4, 2) == p.id && Field(r, 6, 2) == p.segment
            && (Field(r, 8, 4) % 2 == 1 <==> p.ats) && (Field(r, 8, 4) / 2 % 2 == 1 <==> p.pri) && Field(r, 12, 2) == 16
            && (p.mappings.Some? ==> Field(r, 14, 2) == |p.mappings.value| && r[16..] == Mappings(p.mappings.value))
  {
    hide Le, Mappings;
    Powers();
    var r := PcieNode(p);
    assert r[4..6] == r[4..][..2] && r[6..8] == r[4..][2..4] && r[8..12] == r[4..][4..8] && r[12..14] == r[4..][8..10];
    FieldReads(r, 4, 2, p.id);
    FieldReads(r, 6, 2, p.segment);
    var mappings := if p.mappings.Some? then p.mappings.value else [];
    assert r[14..16] == r[4..][10..12] == Le(|mappings|, 2) && r[16..] == r[4..][12..];
    FieldReads(r, 14, 2, |mappings|);
    FieldReads(r, 8, 4, Flag(p.ats, 1) + Flag(p.pri, 2));
    FieldReads(r, 12, 2, 16);
  }

  datatype Platform = Platform(id: nat, name: Bytes, mappings: Option<seq<IdMapping>>)

  function MappingOffset(p: Platform): nat {
    12 + |p.name| + 1
  }

  function PlatformLen(p: Platform): nat {
    MappingOffset(p) + 20 * if p.mappings.Some? then |p.mappings.value| else 0
  }

  function PlatformNode(p: Platform): (r: Bytes)
    ensures |r| == PlatformLen(p) && Announces(r, 2, 2)
  {
    var mappings := if p.mappings.Some? then p.mappings.value else [];
    NodeBytes([2, 1], PlatformLen(p),
         Le(p.id, 2) + Le(0, 2) + Le(MappingOffset(p), 2) + Le(|mappings|, 2) + p.name + [0] + Mappings(mappings))
  }

  /** Mappings start behind the name. */
  lemma PlatformIommu(p: Platform, k: nat)
    requires p.mappings.Some? && k < |p.mappings.value|
    ensures var at := MappingOffset(p) + 20 * k;
            at + 16 <= |PlatformNode(p)| && PlatformNode(p)[at + 12..at + 16] == Le(p.mappings.value[k].iommu, 4)
  {
    hide Le, Mappings;
    MappingIommuAt(p.mappings.value, k);
    var r, skip := PlatformNode(p), MappingOffset(p) - 4;
    assert r[4..][skip..] == Mappings(p.mappings.value);
    assert r[4 + skip + 20 * k + 12..4 + skip + 20 * k + 16] == r[4..][skip..][20 * k + 12..20 * k + 16];
  }

  /** Reserved bytes are zero, and so is the location of an IOMMU that is no PCI device. */
  lemma ReservedZero(i: Iommu, p: Platform)
    ensures Field(IommuNode(i), 6, 2) == 0 && Field(PlatformNode(p), 6, 2) == 0
    ensures i.pci.None? ==> Field(IommuNode(i), 20, 2) == 0 && Field(IommuNode(i), 22, 2) == 0
  {
    hide Le, Mappings, Wires, Field, Bdf;
    SmallFits();
    var r, h, q := IommuNode(i), IommuHead(i), PlatformNode(p);
    assert r[4..][..24] == h && r[6..8] == r[4..][2..4] && r[20..22] == r[4..][16..18] && r[22..24] == r[4..][18..20];
    assert h[2..4] == Le(0, 2) && q[6..8] == q[4..][2..4] == Le(0, 2);
    FieldReads(r, 6, 2, 0);
    FieldReads(q, 6, 2, 0);
    if i.pci.None? {
      assert h[16..18] == Le(0, 2) && h[18..20] == Le(0, 2);
      FieldReads(r, 20, 2, 0);
      FieldReads(r, 22, 2, 0);
    }
  }

  lemma PlatformParts(p: Platform)
    ensures var r, mappings := PlatformNode(p), if p.mappings.Some? then p.mappings.value else [];
            && r[0] == 2 && r[1] == 1 && r[4..6] == Le(p.id, 2) && r[8..10] == Le(MappingOffset(p), 2)
            && r[10..12] == Le(|mappings|, 2) && r[12..12 + |p.name|] == p.name && r[12 + |p.name|] == 0
            && r[MappingOffset(p)..] == Mappings(mappings)
  {
    hide Le, Mappings;
    var r, mappings := PlatformNode(p), if p.mappings.Some? then p.mappings.value else [];
    var head := Le(p.id, 2) + Le(0, 2) + Le(MappingOffset(p), 2) + Le(|mappings|, 2);
    assert r[4..] == head + p.name + [0] + Mappings(mappings);
    assert r[4..6] == r[4..][..2] && r[8..10] == r[4..][4..6] && r[10..12] == r[4..][6..8];
    assert r[12..12 + |p.name|] == r[4..][8..8 + |p.name|] && r[12 + |p.name|] == r[4..][8 + |p.name|];
    assert r[MappingOffset(p)..] == r[4..][MappingOffset(p) - 4..];
  }

  lemma PlatformLayout(p: Platform)
    requires p.id < 0x1_0000 && MappingOffset(p) < 0x1_0000 && (p.mappings.Some? ==> |p.mappings.value| < 0x1_0000)
    ensures var r := PlatformNode(p);
            && r[0] == 2 && r[1] == 1 && Field(r, 4, 2) == p.id && Field(r, 8, 2) == MappingOffset(p)
            && r[12..12 + |p.name|] == p.name && r[12 + |p.name|] == 0
            && (p.mappings.Some? ==>
                  Field(r, 10, 2) == |p.mappings.value| && r[MappingOffset(p)..] == Mappings(p.mappings.value))
  {
    hide Le, Mappings, PlatformNode, Field;
    Powers();
    var r, mappings := PlatformNode(p), if p.mappings.Some? then p.mappings.value else [];
    PlatformParts(p);
    FieldReads(r, 10, 2, |mappings|);
    FieldReads(r, 4, 2, p.id);
    FieldReads(r, 8, 2, MappingOffset(p));
  }

  // ----- Reading devices back -----

  datatype Device = IommuDevice(iommu: Iommu) | PcieDevice(pcie: PcieRootComplex) | PlatformDevice(platform: Platform)

  function EncodeDevice(d: Device): Bytes {
    match d
    case IommuDevice(i) => IommuNode(i)
    case PcieDevice(p) => PcieNode(p)
    case PlatformDevice(p) => PlatformNode(p)
  }

  function WireOf(b: Bytes): InterruptWire
    requires |b| == 8
  {
    InterruptWire(Field(b, 0, 4), Field(b, 4, 2) % 2 == 1, Field(b, 4, 2) / 2 % 2 == 1, Field(b, 6, 2))
  }

  function WireSlot(b: Bytes, at: nat, k: nat): (r: Bytes)
    requires at + 8 * k + 8 <= |b|
    ensures |r| == 8
  {
    b[at + 8 * k..at + 8 * k + 8]
  }

  function MappingSlot(b: Bytes, at: nat, k: nat): (r: Bytes)
    requires at + 20 * k + 20 <= |b|
    ensures |r| == 20
  {
    b[at + 20 * k..at + 20 * k + 20]
  }

  function ReadWires(b: Bytes, at: nat, n: nat): (r: seq<InterruptWire>)
    requires at + 8 * n <= |b|
    ensures |r| == n && forall k :: 0 <= k < n ==> r[k] == WireOf(WireSlot(b, at, k))
  {
    seq(n, k requires 0 <= k < n => WireOf(WireSlot(b, at, k)))
  }

  function MappingOf(b: Bytes): IdMapping
    requires |b| == 20
  {
    var flags := Field(b, 16, 4);
    IdMapping(Field(b, 0, 4), Field(b, 4, 4), Field(b, 8, 4), Field(b, 12, 4),
              flags % 2 == 1, flags / 2 % 2 == 1, flags / 4 % 2 == 1)
  }

  function ReadMappings(b: Bytes, at: nat, n: nat): (r: seq<IdMapping>)
    requires at + 20 * n <= |b|
    ensures |r| == n && forall k :: 0 <= k < n ==> r[k] == MappingOf(MappingSlot(b, at, k))
  {
    seq(n, k requires 0 <= k < n => MappingOf(MappingSlot(b, at, k)))
  }

  function IommuOf(b: Bytes): Option<Iommu> {
    if |b| < 32 || |b| != 32 + 8 * Field(b, 28, 2) || Field(b, 30, 2) != 32 then None
    else
      var flags := Field(b, 16, 4);
      Some(Iommu(Field(b, 4, 2), Some(Field(b, 8, 8)),
                 if flags % 2 == 1 then Some(DeviceOf(Field(b, 20, 2), Field(b, 22, 2))) else None,
                 if flags / 2 % 2 == 1 then Some(Field(b, 24, 4)) else None,
                 Some(ReadWires(b, 32, Field(b, 28, 2)))))
  }

  function PcieOf(b: Bytes): Option<PcieRootComplex> {
    if |b| < 16 || |b| != 16 + 20 * Field(b, 14, 2) || Field(b, 12, 2) != 16 then None
    else
      var flags := Field(b, 8, 4);
      Some(PcieRootComplex(Field(b, 4, 2), Field(b, 6, 2), flags % 2 == 1, flags / 2 % 2 == 1,
                           Some(ReadMappings(b, 16, Field(b, 14, 2)))))
  }

  function PlatformOf(b: Bytes): Option<Platform> {
    if |b| < 13 then None
    else
      var at := Field(b, 8, 2);
      if at < 13 || |b| != at + 20 * Field(b, 10, 2) || b[at - 1] != 0 then None
      else Some(Platform(Field(b, 4, 2), b[12..at - 1], Some(ReadMappings(b, at, Field(b, 10, 2)))))
  }

  /** Reads a device by its type. */
  function DecodeDevice(b: Bytes): Option<Device> {
    if |b| < 4 || Field(b, 2, 2) != |b| || b[1] != 1 then None
    else if b[0] == 0 && IommuOf(b).Some? then Some(IommuDevice(IommuOf(b).value))
    else if b[0] == 1 && PcieOf(b).Some? then Some(PcieDevice(PcieOf(b).value))
    else if b[0] == 2 && PlatformOf(b).Some? then Some(PlatformDevice(PlatformOf(b).value))
    else None
  }

  function OrNone<T>(o: Option<seq<T>>): Option<seq<T>> {
    if o.Some? then o else Some([])
  }

  /** Absent lists are emitted like empty ones, and an absent base address like zero. */
  function Normal(d: Device): Device {
    match d
    case IommuDevice(i) => IommuDevice(i.(baseAddr := Some(OrZero(i.baseAddr)), wires := OrNone(i.wires)))
    case PcieDevice(p) => PcieDevice(p.(mappings := OrNone(p.mappings)))
    case PlatformDevice(p) => PlatformDevice(p.(mappings := OrNone(p.mappings)))
  }

  predicate WireFits(w: InterruptWire) {
    w.num < TWO32 && w.aplicId < 0x1_0000
  }

  predicate MappingFits(m: IdMapping) {
    m.src < TWO32 && m.dst < TWO32 && m.count < TWO32 && m.iommu < TWO32
  }

  predicate MappingsFit(o: Option<seq<IdMapping>>) {
    o.Some? ==> forall k :: 0 <= k < |o.value| ==> MappingFits(o.value[k])
  }

  predicate Representable(d: Device) {
    match d
    case IommuDevice(i) =>
      && IommuLen(i) < 0x1_0000 && i.id < 0x1_0000 && OrZero(i.baseAddr) < TWO64 && OrZero(i.proximity) < TWO32
      && (i.pci.Some? ==> ValidPci(i.pci.value) && i.pci.value.segment < 0x1_0000)
      && (i.wires.Some? ==> forall k :: 0 <= k < |i.wires.value| ==> WireFits(i.wires.value[k]))
    case PcieDevice(p) => PcieLen(p) < 0x1_0000 && p.id < 0x1_0000 && p.segment < 0x1_0000 && MappingsFit(p.mappings)
    case PlatformDevice(p) => PlatformLen(p) < 0x1_0000 && p.id < 0x1_0000 && MappingsFit(p.mappings)
  }

  lemma WiresRead(b: Bytes, at: nat, ws: seq<InterruptWire>)
    requires at + 8 * |ws| <= |b| && b[at..at + 8 * |ws|] == Wires(ws)
    requires forall k :: 0 <= k < |ws| ==> WireFits(ws[k])
    ensures ReadWires(b, at, |ws|) == ws
  {
    hide Wires, WireOf, WireFits, WireSlot, Holds;
    WholeHolds(b, at, Wires(ws));
    forall k | 0 <= k < |ws| ensures WireOf(WireSlot(b, at, k)) == ws[k] {
      WireInSlot(b, at, ws, k);
      WireReads(ws[k]);
    }
  }

  lemma WireInSlot(b: Bytes, at: nat, ws: seq<InterruptWire>, k: nat)
    requires Holds(b, at, Wires(ws)) && at + 8 * |ws| <= |b| && k < |ws|
    ensures WireSlot(b, at, k) == WireBytes(ws[k])
  {
    hide Wires, WireBytes, WireSlot, Holds;
    SlotOfWires(ws, k);
    WireHeld(b, at, Wires(ws), k);
  }

  lemma SlotOfWires(ws: seq<InterruptWire>, k: nat)
    requires k < |ws|
    ensures WireSlot(Wires(ws), 0, k) == WireBytes(ws[k])
  {
    hide Wires, WireBytes;
    WireAt(ws, k);
  }

  lemma MappingInSlot(b: Bytes, at: nat, ms: seq<IdMapping>, k: nat)
    requires Holds(b, at, Mappings(ms)) && at + 20 * |ms| <= |b| && k < |ms|
    ensures MappingSlot(b, at, k) == MappingBytes(ms[k])
  {
    hide Mappings, MappingBytes, MappingSlot, Holds;
    SlotOfMappings(ms, k);
    MappingHeld(b, at, Mappings(ms), k);
  }

  lemma SlotOfMappings(ms: seq<IdMapping>, k: nat)
    requires k < |ms|
    ensures MappingSlot(Mappings(ms), 0, k) == MappingBytes(ms[k])
  {
    hide Mappings, MappingBytes;
    MappingAt(ms, k);
  }

  lemma WireHeld(b: Bytes, at: nat, whole: Bytes, k: nat)
    requires Holds(b, at, whole) && 8 * k + 8 <= |whole|
    ensures at + 8 * k + 8 <= |b| && WireSlot(b, at, k) == WireSlot(whole, 0, k)
  {
    SliceOfSlice(b, at, at + |whole|, 8 * k, 8 * k + 8);
  }

  lemma MappingHeld(b: Bytes, at: nat, whole: Bytes, k: nat)
    requires Holds(b, at, whole) && 20 * k + 20 <= |whole|
    ensures at + 20 * k + 20 <= |b| && MappingSlot(b, at, k) == MappingSlot(whole, 0, k)
  {
    SliceOfSlice(b, at, at + |whole|, 20 * k, 20 * k + 20);
  }

  lemma WireReads(w: InterruptWire)
    requires WireFits(w)
    ensures WireOf(WireBytes(w)) == w
  {
    hide WireBytes, Field;
    WireLayout(w);
  }

  lemma MappingsRead(b: Bytes, at: nat, ms: seq<IdMapping>)
    requires at + 20 * |ms| <= |b| && b[at..at + 20 * |ms|] == Mappings(ms)
    requires forall k :: 0 <= k < |ms| ==> MappingFits(ms[k])
    ensures ReadMappings(b, at, |ms|) == ms
  {
    hide Mappings, MappingOf, MappingFits, MappingSlot, Holds;
    WholeHolds(b, at, Mappings(ms));
    forall k | 0 <= k < |ms| ensures MappingOf(MappingSlot(b, at, k)) == ms[k] {
      MappingInSlot(b, at, ms, k);
      MappingReads(ms[k]);
    }
  }

  lemma MappingReads(m: IdMapping)
    requires MappingFits(m)
    ensures MappingOf(MappingBytes(m)) == m
  {
    hide MappingBytes, Field;
    MappingLayout(m);
  }

  lemma SizeReads(b: Bytes)
    requires Announces(b, 2, 2)
    ensures Field(b, 2, 2) == |b| <==> |b| < 0x1_0000
  {
    Powers();
    FieldReadsIff(b, 2, 2, |b|);
  }

  /** A device is read back, up to what is emitted alike, exactly when its numbers and its size fit their fields. */
  lemma DeviceRoundTrip(d: Device)
    ensures DecodeDevice(EncodeDevice(d)) == Some(Normal(d)) <==> Representable(d)
  {
    hide EncodeDevice, DecodeDevice;
    if Representable(d) {
      DeviceReads(d);
    } else if DecodeDevice(EncodeDevice(d)).Some? {
      DecodedFits(EncodeDevice(d));
    }
  }

  lemma DeviceReads(d: Device)
    requires Representable(d)
    ensures DecodeDevice(EncodeDevice(d)) == Some(Normal(d))
  {
    hide Field, IommuNode, PcieNode, PlatformNode, ReadWires, ReadMappings, Wires, Mappings, DeviceOf, Bdf;
    var b := EncodeDevice(d);
    SizeReads(b);
    match d
    case IommuDevice(i) =>
      IommuLayout(i.(wires := OrNone(i.wires)));
      SameIommu(i);
      if i.pci.Some? { DeviceOfBdf(i.pci.value); }
      WiresRead(b, 32, OrNone(i.wires).value);
    case PcieDevice(p) =>
      PcieLayout(p.(mappings := OrNone(p.mappings)));
      SamePcie(p);
      MappingsRead(b, 16, OrNone(p.mappings).value);
    case PlatformDevice(p) =>
      PlatformLayout(p.(mappings := OrNone(p.mappings)));
      SamePlatform(p);
      MappingsRead(b, MappingOffset(p), OrNone(p.mappings).value);
  }

  lemma SameIommu(i: Iommu)
    ensures IommuNode(i) == IommuNode(i.(wires := OrNone(i.wires)))
  {
    hide Le, Wires;
    assert IommuHead(i) == IommuHead(i.(wires := OrNone(i.wires)));
  }

  lemma SamePcie(p: PcieRootComplex)
    ensures PcieNode(p) == PcieNode(p.(mappings := OrNone(p.mappings)))
  {
    hide Le, Mappings;
  }

  lemma SamePlatform(p: Platform)
    ensures PlatformNode(p) == PlatformNode(p.(mappings := OrNone(p.mappings)))
  {
    hide Le, Mappings;
  }

  /** Whatever can be read fits. */
  lemma DecodedFits(b: Bytes)
    requires DecodeDevice(b).Some?
    ensures Representable(DecodeDevice(b).value)
  {
    hide Field;
    Powers();
    FieldBound(b, 2, 2);
    FieldBound(b, 4, 2);
    if b[0] == 0 {
      FieldBound(b, 8, 8);
      FieldBound(b, 20, 2);
      FieldBound(b, 24, 4);
      forall k | 0 <= k < Field(b, 28, 2) ensures WireFits(WireOf(WireSlot(b, 32, k))) {
        WireOfFits(WireSlot(b, 32, k));
      }
    } else if b[0] == 1 {
      FieldBound(b, 6, 2);
      MappingsOfFit(b, 16, Field(b, 14, 2));
    } else {
      MappingsOfFit(b, Field(b, 8, 2), Field(b, 10, 2));
    }
  }

  lemma WireOfFits(b: Bytes)
    requires |b| == 8
    ensures WireFits(WireOf(b))
  {
    hide Field;
    Powers();
    FieldBound(b, 0, 4);
    FieldBound(b, 6, 2);
  }

  lemma MappingsOfFit(b: Bytes, at: nat, n: nat)
    requires at + 20 * n <= |b|
    ensures MappingsFit(Some(ReadMappings(b, at, n)))
  {
    hide Field;
    forall k | 0 <= k < n ensures MappingFits(MappingOf(MappingSlot(b, at, k))) {
      MappingOfFits(MappingSlot(b, at, k));
    }
  }

  lemma MappingOfFits(b: Bytes)
    requires |b| == 20
    ensures MappingFits(MappingOf(b))
  {
    hide Field;
    Powers();
    FieldBound(b, 0, 4);
    FieldBound(b, 4, 4);
    FieldBound(b, 8, 4);
    FieldBound(b, 12, 4);
  }

  // ----- The table -----

  class Rimt {
    const oem: Oem
    var length: nat
    var checksumByte: Byte
    const checksum: Checksum
    var handleOffset: nat
    var devices: seq<Bytes>
    ghost var handles: seq<nat>

    ghost function Emitted(): Bytes
      requires ValidOem(oem)
      reads this
    {
      RimtHeader(oem, length, checksumByte, |devices|) + Concat(devices)
    }

    ghost predicate Valid()
      reads this, checksum
    {
      && ValidOem(oem) && checksum.Valid()
      && length == handleOffset == |Emitted()| && AllAnnounce(devices, 2, 2)
      && Handles(BASE, devices, handles) && length < TWO32
      && Congruent(checksum.total, Fixed(oem) + Sum(Le(length, 4)) + |devices| + Sum(Concat(devices)))
      && (checksum.total + checksumByte) % 256 == 0
    }

    constructor (oem_: Oem)
      requires ValidOem(oem_)
      ensures Valid() && devices == [] && handles == [] && length == BASE && oem == oem_ && fresh(checksum)
    {
      hide Le, Sum, Congruent;
      SumNothing();
      var cksum := new Checksum();
      cksum.Append(Header(RIMT, BASE, 0, oem_));
      HeaderSum(RIMT, BASE, 0, oem_);
      cksum.Append(Le(BASE, 4));
      oem, length, handleOffset, devices, handles := oem_, BASE, BASE, [], [];
      CongruentSame(cksum.total, Fixed(oem_) + Sum(Le(BASE, 4)) + 0 + Sum(Concat([])));
      checksum, checksumByte := cksum, 0;
      new;
      checksumByte := checksum.Value();
    }

    /** The header of the emitted table holds what the caller gave, and the number of devices added. */
    lemma HeaderHolds()
      requires Valid()
      ensures StartsAs(Emitted(), "RIMT", 1, oem) && |Emitted()| >= 48
      ensures Field(Emitted(), 36, 4) == |devices| && Field(Emitted(), 40, 4) == 48 && Field(Emitted(), 44, 4) == 0
    {
      hide Le, Concat, Field, Sum, Congruent, StartsAs, Header;
      NodesFit(devices, 2, 2);
      var front := RimtHeader(oem, length, checksumByte, |devices|);
      var more := Le(|devices|, 4) + Le(BASE, 4) + Le(0, 4);
      assert Emitted() == Header(RIMT, length, checksumByte, oem) + (more + Concat(devices));
      SignatureIs();
      TableStarts(RIMT, length, checksumByte, oem, more + Concat(devices), "RIMT");
      RimtHeaderLayout(oem, length, checksumByte, |devices|);
      FieldInFront(front, Concat(devices), 36, 4);
      FieldInFront(front, Concat(devices), 40, 4);
      FieldInFront(front, Concat(devices), 44, 4);
    }

    /** The bytes sum to zero exactly when the upper bytes of the device count do. */
    lemma SumsToZeroIff()
      requires Valid()
      ensures ZeroSum(Emitted()) <==> UpperBytes(|devices|, 4) % 256 == 0
      ensures |devices| < 256 ==> ZeroSum(Emitted())
      ensures 256 <= |devices| < 0x1_0000 ==> !ZeroSum(Emitted())
    {
      hide Le, Fixed, UpperBytes, Sum, Congruent;
      RimtHeaderSum(oem, length, checksumByte, |devices|);
      SumConcat(RimtHeader(oem, length, checksumByte, |devices|), Concat(devices));
      CountGap(|devices|, 4);
      GapIff(checksum.total, checksumByte, Fixed(oem) + Sum(Le(length, 4)) + Sum(Concat(devices)), |devices|,
             Sum(Le(|devices|, 4)), UpperBytes(|devices|, 4));
      if |devices| < 256 {
        SmallCounts(|devices|, 4);
      } else if |devices| < 0x1_0000 {
        MediumCounts(|devices|, 4);
      }
    }

    /** The devices can be read back exactly when none is too long for its length field. */
    lemma ReadsBack()
      requires Valid()
      ensures Walk(Emitted()[BASE..], 2, 2) == Some(devices) <==>
              forall i :: 0 <= i < |devices| ==> |devices[i]| < 0x1_0000
    {
      assert Emitted()[BASE..] == Concat(devices);
      Powers();
      WalkExact(devices, 2, 2);
    }

    /** A handle, once returned, is where its node starts in the emitted table, for ever. */
    lemma HandleStays(j: nat)
      requires Valid() && j < |devices|
      ensures Holds(Emitted(), handles[j], devices[j])
    {
      HandleHolds(RimtHeader(oem, length, checksumByte, |devices|), devices, handles, j);
    }

    /** A handle stored in node `i` leads to the node it was issued for. */
    lemma Reaches(i: nat, at: nat, j: nat)
      requires Valid() && i < |devices| && j < |devices|
      requires at + 4 <= |devices[i]| && devices[i][at..at + 4] == Le(handles[j], 4)
      ensures handles[i] + at + 4 <= |Emitted()|
      ensures Holds(Emitted(), Field(Emitted(), handles[i] + at, 4), devices[j])
    {
      hide Le;
      Powers();
      assert Announces(devices[j], 2, 2);
      FollowHandle(RimtHeader(oem, length, checksumByte, |devices|), devices, handles, i, at, 4, j);
    }

    /** Whoever follows the IOMMU offset of an id mapping finds the device it was issued for. */
    lemma PcieReaches(i: nat, p: PcieRootComplex, k: nat, j: nat)
      requires Valid() && i < |devices| && devices[i] == PcieNode(p) && j < |devices|
      requires p.mappings.Some? && k < |p.mappings.value| && p.mappings.value[k].iommu == handles[j]
      ensures handles[i] + 28 + 20 * k + 4 <= |Emitted()|
      ensures Holds(Emitted(), Field(Emitted(), handles[i] + (28 + 20 * k), 4), devices[j])
    {
      hide Valid, Le, PcieNode;
      PcieIommu(p, k);
      Reaches(i, 28 + 20 * k, j);
    }

    lemma PlatformReaches(i: nat, p: Platform, k: nat, j: nat)
      requires Valid() && i < |devices| && devices[i] == PlatformNode(p) && j < |devices|
      requires p.mappings.Some? && k < |p.mappings.value| && p.mappings.value[k].iommu == handles[j]
      ensures var at := MappingOffset(p) + 20 * k + 12;
              && handles[i] + at + 4 <= |Emitted()|
              && Holds(Emitted(), Field(Emitted(), handles[i] + at, 4), devices[j])
    {
      hide Valid, Le, PlatformNode;
      PlatformIommu(p, k);
      Reaches(i, MappingOffset(p) + 20 * k + 12, j);
    }

    method UpdateHeader(sum: Byte, len: nat)
      requires checksum.Valid() && length + len < TWO32
      modifies this`length, this`checksumByte, checksum
      ensures checksum.Valid() && length == old(length) + len
      ensures checksum.total == old(checksum.total) + sum + Sum(Le(length, 4)) - Sum(Le(old(length), 4)) + 1
      ensures (checksum.total + checksumByte) % 256 == 0
    {
      hide Le;
      var oldLen := length;
      var newLen := len + oldLen;
      length := newLen;
      checksum.Delete(Le(oldLen, 4));
      checksum.Append(Le(newLen, 4));
      checksum.Add(sum);
      checksum.Add(1);
      checksumByte := checksum.Value();
    }

    method AddDevice(device: Bytes, len: nat) returns (handle: nat)
      requires Valid() && len == |device| && Announces(device, 2, 2) && length + len < TWO32
      modifies this, checksum
      ensures Valid() && devices == old(devices) + [device] && length == old(length) + len
      ensures handle == Offset(BASE, devices, |old(devices)|) < TWO32
      ensures handles == old(handles) + [handle]
    {
      hide Le, Fixed, Sum, Concat, Congruent;
      ConcatAppend(devices, device);
      SumConcat(Concat(devices), device);
      ghost var before := Fixed(oem) + Sum(Le(length, 4)) + |devices| + Sum(Concat(devices));
      handle := handleOffset;
      var sum := U8Sum(device);
      UpdateHeader(sum, len);
      CongruentShift(old(checksum.total), sum, before, Sum(device), checksum.total - old(checksum.total) - sum);
      handleOffset := handleOffset + len;
      HandlesGrow(BASE, devices, handles, device);
      devices, handles := devices + [device], handles + [handle];
      assert devices[..|old(devices)|] == old(devices);
    }

    method AddIommu(i: Iommu) returns (handle: nat)
      requires Valid() && (i.pci.Some? ==> ValidPci(i.pci.value)) && length + IommuLen(i) < TWO32
      modifies this, checksum
      ensures Valid() && devices == old(devices) + [IommuNode(i)]
      ensures handle == Offset(BASE, devices, |old(devices)|) < TWO32
      ensures handles == old(handles) + [handle]
    {
      handle := AddDevice(IommuNode(i), IommuLen(i));
    }

    method AddPcieRootComplex(p: PcieRootComplex)
      requires Valid() && length + PcieLen(p) < TWO32
      modifies this, checksum
      ensures Valid() && devices == old(devices) + [PcieNode(p)]
      ensures old(handles) <= handles
    {
      var _ := AddDevice(PcieNode(p), PcieLen(p));
    }

    method AddPlatform(p: Platform)
      requires Valid() && length + PlatformLen(p) < TWO32
      modifies this, checksum
      ensures Valid() && devices == old(devices) + [PlatformNode(p)] && length == old(length) + PlatformLen(p)
      ensures old(handles) <= handles
    {
      var _ := AddDevice(PlatformNode(p), PlatformLen(p));
    }

    method ToAmlBytes() returns (r: Bytes)
      requires Valid()
      ensures r == Emitted() && |r| == length
      ensures ZeroSum(r) <==> UpperBytes(|devices|, 4) % 256 == 0
    {
      hide Le, Sum, UpperBytes;
      r := EmitNodes(RimtHeader(oem, length, checksumByte, |devices|), devices);
      SumsToZeroIff();
    }
  }

  /** 256 additions to a new table leave a checksum that no longer matches. */
  method TooManyDevices(oem: Oem) returns (t: Rimt)
    requires ValidOem(oem)
    ensures t.Valid() && |t.devices| == 256 && !ZeroSum(t.Emitted())
  {
    hide Le, Sum, Concat, Congruent;
    t := new Rimt(oem);
    for i := 0 to 256
      invariant t.Valid() && fresh(t) && fresh(t.checksum) && |t.devices| == i && t.length == BASE + 13 * i
    {
      t.AddPlatform(Platform(0, [], None));
    }
    t.SumsToZeroIff();
  }

  /** A platform device with a name of 65523 characters makes a node of 65536 bytes, which announces itself as empty. */
  method LongName(oem: Oem) returns (t: Rimt)
    requires ValidOem(oem)
    ensures t.Valid() && ZeroSum(t.Emitted()) && Walk(t.Emitted()[BASE..], 2, 2) != Some(t.devices)
  {
    hide Le, Sum, Concat, ZeroSum, Congruent, PlatformNode, Walk;
    t := new Rimt(oem);
    var p := Platform(0, seq(65523, _ => 'x' as int), None);
    t.AddPlatform(p);
    assert |t.devices[0]| == PlatformLen(p) == 0x1_0000;
    t.SumsToZeroIff();
    t.ReadsBack();
  }
}

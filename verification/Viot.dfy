/** The virtual I/O translation table. */
module Viots {
  import opened Basics
  import opened ByteStrings
  import opened Checksums
  import opened TableHeaders
  import opened CountedTables
  import opened PciDevices

  const VIOT: Kind := Kind([0x56, 0x49, 0x4f, 0x54], 1)
  const BASE: nat := 48

  function ViotHeader(oem: Oem, length: nat, checksum: Byte, nodes: nat): (r: Bytes)
    requires ValidOem(oem)
    ensures |r| == BASE
  {
    Header(VIOT, length, checksum, oem) + Le(nodes, 2) + Le(BASE, 2) + Le(0, 8)
  }

  lemma ViotHeaderLayout(oem: Oem, length: nat, checksum: Byte, nodes: nat)
    requires ValidOem(oem)
    ensures var r := ViotHeader(oem, length, checksum, nodes);
            && r[..HEADER_LEN] == Header(VIOT, length, checksum, oem)
            && (Field(r, 36, 2) == nodes <==> nodes < 0x1_0000) && Field(r, 38, 2) == |r| && Field(r, 40, 8) == 0
  {
    hide Le, Header;
    Powers();
    var r := ViotHeader(oem, length, checksum, nodes);
    FieldReadsIff(r, 36, 2, nodes);
    FieldReads(r, 38, 2, BASE);
    var a := Header(VIOT, length, checksum, oem) + Le(nodes, 2) + Le(BASE, 2);
    assert r == a + Le(0, 8) && |a| == 40 && (a + Le(0, 8))[40..] == Le(0, 8);
    assert r[..48] == r && r[40..48] == r[..48][40..];
    FieldReads(r, 40, 8, 0);
  }

  lemma SignatureIs()
    ensures VIOT.signature == Text("VIOT")
  {
    var t := Text("VIOT");
    assert t[0] == 0x56 && t[1] == 0x49 && t[2] == 0x4f && t[3] == 0x54;
  }

  ghost function Fixed(oem: Oem): nat
    requires ValidOem(oem)
  {
    FixedSum(VIOT, oem) + Sum(Le(BASE, 2))
  }

  lemma ViotHeaderSum(oem: Oem, length: nat, checksum: Byte, nodes: nat)
    requires ValidOem(oem)
    ensures Sum(ViotHeader(oem, length, checksum, nodes)) ==
            Fixed(oem) + Sum(Le(length, 4)) + checksum + Sum(Le(nodes, 2))
  {
    hide Le;
    var a := Header(VIOT, length, checksum, oem);
    HeaderSum(VIOT, length, checksum, oem);
    SumConcat(a, Le(nodes, 2));
    SumConcat(a + Le(nodes, 2), Le(BASE, 2));
    SumConcat(a + Le(nodes, 2) + Le(BASE, 2), Le(0, 8));
    ZeroBytes(8);
  }

  // ----- Nodes -----

  /** The two kinds of endpoints name their translation device by its handle. */
  function PciRangeNode(first: PciDevice, last: PciDevice, handle: nat): (r: Bytes)
    ensures |r| == 24 && Announces(r, 2, 2) && r[16..18] == Le(handle, 2)
  {
    Reference([1, 0],
              Le(Bdf(first), 4) + Le(first.segment, 2) + Le(last.segment, 2) + Le(Bdf(first), 2) + Le(Bdf(last), 2),
              handle)
  }

  function Reference(first: Bytes, fields: Bytes, handle: nat): (r: Bytes)
    requires |first| == 2 && |fields| == 12
    ensures |r| == 24 && Announces(r, 2, 2) && r[16..18] == Le(handle, 2) && r[4..16] == fields && r[..2] == first
  {
    var tail := fields + Le(handle, 2) + (Le(0, 2) + Le(0, 4));
    ReferenceParts(NodeBytes(first, 24, tail), fields, Le(handle, 2), Le(0, 2) + Le(0, 4));
    NodeBytes(first, 24, tail)
  }

  lemma ReferenceParts(r: Bytes, fields: Bytes, handle: Bytes, zeros: Bytes)
    requires |r| == 24 && |fields| == 12 && |handle| == 2 && r[4..] == fields + handle + zeros
    ensures r[4..16] == fields && r[16..18] == handle
  {
    var tail := fields + handle + zeros;
    assert tail[0..12] == fields && tail[12..14] == handle && r[4..24] == tail;
    SliceOfSlice(r, 4, 24, 0, 12);
    SliceOfSlice(r, 4, 24, 12, 14);
  }

  function MmioEndpointNode(endpoint: nat, baseAddr: nat, handle: nat): (r: Bytes)
    ensures |r| == 24 && Announces(r, 2, 2) && r[16..18] == Le(handle, 2)
  {
    Reference([2, 0], Le(endpoint, 4) + Le(baseAddr, 8), handle)
  }

  function VirtioPciNode(d: PciDevice): (r: Bytes)
    ensures |r| == 16 && Announces(r, 2, 2)
  {
    NodeBytes([3, 0], 16, Le(d.segment, 2) + Le(Bdf(d), 2) + Le(0, 8))
  }

  function VirtioMmioNode(baseAddr: nat): (r: Bytes)
    ensures |r| == 16 && Announces(r, 2, 2)
  {
    NodeBytes([4, 0], 16, Le(0, 4) + Le(baseAddr, 8))
  }

  // ----- What a reader of the nodes finds -----

  lemma PciRangeLayout(first: PciDevice, last: PciDevice, handle: nat)
    requires ValidPci(first) && first.segment < 0x1_0000 && ValidPci(last) && last.segment < 0x1_0000
    requires handle < 0x1_0000
    ensures var r := PciRangeNode(first, last, handle);
            && r[0] == 1 && Field(r, 2, 2) == 24 && Field(r, 4, 4) == Bdf(first)
            && Field(r, 8, 2) == first.segment && Field(r, 10, 2) == last.segment
            && Field(r, 12, 2) == Bdf(first) && Field(r, 14, 2) == Bdf(last) && Field(r, 16, 2) == handle
  {
    hide Le;
    SmallFits();
    BdfFits(first);
    BdfFits(last);
    var r := PciRangeNode(first, last, handle);
    var a := Le(Bdf(first), 4) + Le(first.segment, 2) + Le(last.segment, 2) + Le(Bdf(first), 2) + Le(Bdf(last), 2);
    assert r[4..16] == a && r[4..8] == a[..4] && r[8..10] == a[4..6] && r[10..12] == a[6..8];
    assert r[12..14] == a[8..10] && r[14..16] == a[10..12];
    FieldReads(r, 2, 2, 24);
    FieldReads(r, 4, 4, Bdf(first));
    FieldReads(r, 8, 2, first.segment);
    FieldReads(r, 10, 2, last.segment);
    FieldReads(r, 12, 2, Bdf(first));
    FieldReads(r, 14, 2, Bdf(last));
    FieldReads(r, 16, 2, handle);
  }

  lemma MmioEndpointLayout(endpoint: nat, baseAddr: nat, handle: nat)
    requires endpoint < TWO32 && baseAddr < TWO64 && handle < 0x1_0000
    ensures var r := MmioEndpointNode(endpoint, baseAddr, handle);
            && r[0] == 2 && Field(r, 2, 2) == 24 && Field(r, 4, 4) == endpoint
            && Field(r, 8, 8) == baseAddr && Field(r, 16, 2) == handle
  {
    hide Le;
    SmallFits();
    Powers();
    var r := MmioEndpointNode(endpoint, baseAddr, handle);
    var a := Le(endpoint, 4) + Le(baseAddr, 8);
    assert r[4..16] == a && r[4..8] == a[..4] && r[8..16] == a[4..12];
    FieldReads(r, 2, 2, 24);
    FieldReads(r, 4, 4, endpoint);
    FieldReads(r, 8, 8, baseAddr);
    FieldReads(r, 16, 2, handle);
  }

  lemma VirtioPciLayout(d: PciDevice)
    requires ValidPci(d) && d.segment < 0x1_0000
    ensures var r := VirtioPciNode(d);
            r[0] == 3 && Field(r, 2, 2) == 16 && Field(r, 4, 2) == d.segment && Field(r, 6, 2) == Bdf(d)
  {
    hide Le;
    SmallFits();
    BdfFits(d);
    var r := VirtioPciNode(d);
    assert r[4..6] == r[4..][..2] && r[6..8] == r[4..][2..4];
    FieldReads(r, 2, 2, 16);
    FieldReads(r, 4, 2, d.segment);
    FieldReads(r, 6, 2, Bdf(d));
  }

  lemma VirtioMmioLayout(baseAddr: nat)
    requires baseAddr < TWO64
    ensures var r := VirtioMmioNode(baseAddr);
            r[0] == 4 && Field(r, 2, 2) == 16 && Field(r, 8, 8) == baseAddr
  {
    hide Le;
    SmallFits();
    Powers();
    var r := VirtioMmioNode(baseAddr);
    assert r[8..16] == r[4..][4..12];
    FieldReads(r, 2, 2, 16);
    FieldReads(r, 8, 8, baseAddr);
  }

  datatype Node =
    | PciRange(first: PciDevice, last: PciDevice, handle: nat)
    | MmioEndpoint(endpoint: nat, baseAddr: nat, handle: nat)
    | VirtioPci(device: PciDevice)
    | VirtioMmio(baseAddr: nat)

  function EncodeNode(n: Node): Bytes {
    match n
    case PciRange(first, last, handle) => PciRangeNode(first, last, handle)
    case MmioEndpoint(endpoint, baseAddr, handle) => MmioEndpointNode(endpoint, baseAddr, handle)
    case VirtioPci(device) => VirtioPciNode(device)
    case VirtioMmio(baseAddr) => VirtioMmioNode(baseAddr)
  }

  /** Reads a node by its type. */
  function DecodeNode(b: Bytes): Option<Node> {
    if |b| < 16 || Field(b, 2, 2) != |b| then None
    else if b[0] == 1 && |b| == 24 && Field(b, 4, 4) == Field(b, 12, 2) then
      Some(PciRange(DeviceOf(Field(b, 8, 2), Field(b, 12, 2)), DeviceOf(Field(b, 10, 2), Field(b, 14, 2)),
                    Field(b, 16, 2)))
    else if b[0] == 2 && |b| == 24 then Some(MmioEndpoint(Field(b, 4, 4), Field(b, 8, 8), Field(b, 16, 2)))
    else if b[0] == 3 && |b| == 16 then Some(VirtioPci(DeviceOf(Field(b, 4, 2), Field(b, 6, 2))))
    else if b[0] == 4 && |b| == 16 then Some(VirtioMmio(Field(b, 8, 8)))
    else None
  }

  predicate RepresentableDevice(d: PciDevice) {
    ValidPci(d) && d.segment < 0x1_0000
  }

  predicate Representable(n: Node) {
    match n
    case PciRange(first, last, handle) => RepresentableDevice(first) && RepresentableDevice(last) && handle < 0x1_0000
    case MmioEndpoint(endpoint, baseAddr, handle) => endpoint < TWO32 && baseAddr < TWO64 && handle < 0x1_0000
    case VirtioPci(device) => RepresentableDevice(device)
    case VirtioMmio(baseAddr) => baseAddr < TWO64
  }

  /** A node is read back from its bytes exactly when its numbers fit their fields. */
  lemma NodeRoundTrip(n: Node)
    ensures DecodeNode(EncodeNode(n)) == Some(n) <==> Representable(n)
  {
    if Representable(n) { NodeReads(n); } else { NodeDoesNotRead(n); }
  }

  /** Reserved bytes are zero. */
  lemma ReservedZero(n: Node)
    ensures var r := EncodeNode(n);
            && r[1] == 0
            && match n
               case PciRange(_, _, _) => Field(r, 18, 2) == 0 && Field(r, 20, 4) == 0
               case MmioEndpoint(_, _, _) => Field(r, 18, 2) == 0 && Field(r, 20, 4) == 0
               case VirtioPci(_) => Field(r, 8, 8) == 0
               case VirtioMmio(_) => Field(r, 4, 4) == 0
  {
    hide Le, Reference, Field;
    SmallFits();
    var r := EncodeNode(n);
    match n
    case PciRange(first, last, handle) =>
      ReferenceZero([1, 0], Le(Bdf(first), 4) + Le(first.segment, 2) + Le(last.segment, 2) + Le(Bdf(first), 2)
                            + Le(Bdf(last), 2), handle);
    case MmioEndpoint(endpoint, baseAddr, handle) =>
      ReferenceZero([2, 0], Le(endpoint, 4) + Le(baseAddr, 8), handle);
    case VirtioPci(_) =>
      assert r[8..16] == r[4..][4..12];
      FieldReads(r, 8, 8, 0);
    case VirtioMmio(_) =>
      assert r[4..8] == r[4..][0..4];
      FieldReads(r, 4, 4, 0);
  }

  lemma ReferenceZero(first: Bytes, fields: Bytes, handle: nat)
    requires |first| == 2 && |fields| == 12
    ensures var r := Reference(first, fields, handle); r[1] == first[1] && Field(r, 18, 2) == 0 && Field(r, 20, 4) == 0
  {
    hide Le, Field;
    SmallFits();
    var r := Reference(first, fields, handle);
    var tail := fields + Le(handle, 2) + (Le(0, 2) + Le(0, 4));
    assert r[4..] == tail && tail[14..16] == Le(0, 2) && tail[16..20] == Le(0, 4);
    assert r[18..20] == r[4..][14..16] && r[20..24] == r[4..][16..20];
    FieldReads(r, 18, 2, 0);
    FieldReads(r, 20, 4, 0);
  }

  lemma NodeReads(n: Node)
    requires Representable(n)
    ensures DecodeNode(EncodeNode(n)) == Some(n)
  {
    hide Field, Bdf, DeviceOf, PciRangeNode, MmioEndpointNode, VirtioPciNode, VirtioMmioNode;
    match n
    case PciRange(first, last, handle) =>
      PciRangeLayout(first, last, handle);
      DeviceOfBdf(first);
      DeviceOfBdf(last);
    case MmioEndpoint(endpoint, baseAddr, handle) => MmioEndpointLayout(endpoint, baseAddr, handle);
    case VirtioPci(device) =>
      VirtioPciLayout(device);
      DeviceOfBdf(device);
    case VirtioMmio(baseAddr) => VirtioMmioLayout(baseAddr);
  }

  lemma NodeDoesNotRead(n: Node)
    requires !Representable(n)
    ensures DecodeNode(EncodeNode(n)) != Some(n)
  {
    hide Field, Bdf, PciRangeNode, MmioEndpointNode, VirtioPciNode, VirtioMmioNode;
    var b := EncodeNode(n);
    Powers();
    FieldBound(b, 4, 2);
    FieldBound(b, 4, 4);
    FieldBound(b, 8, 2);
    FieldBound(b, 8, 8);
    FieldBound(b, 10, 2);
    if |b| == 24 { FieldBound(b, 16, 2); }
  }

  // ----- The table -----

  class Viot {
    const oem: Oem
    var length: nat
    var checksumByte: Byte
    const checksum: Checksum
    var handleOffset: nat
    var nodes: seq<Bytes>
    ghost var handles: seq<nat>

    ghost function Emitted(): Bytes
      requires ValidOem(oem)
      reads this
    {
      ViotHeader(oem, length, checksumByte, |nodes|) + Concat(nodes)
    }

    ghost predicate Valid()
      reads this, checksum
    {
      && ValidOem(oem) && checksum.Valid()
      && length == handleOffset == |Emitted()| < 0x1_0000 && AllAnnounce(nodes, 2, 2)
      && Handles(BASE, nodes, handles)
      && BASE + 16 * |nodes| <= length
      && Congruent(checksum.total, Fixed(oem) + Sum(Le(length, 4)) + |nodes| + Sum(Concat(nodes)))
      && (checksum.total + checksumByte) % 256 == 0
    }

    constructor (oem_: Oem)
      requires ValidOem(oem_)
      ensures Valid() && nodes == [] && handles == [] && length == BASE && oem == oem_ && fresh(checksum)
    {
      hide Le, Sum, Congruent;
      SumNothing();
      var cksum := new Checksum();
      cksum.Append(Header(VIOT, BASE, 0, oem_));
      HeaderSum(VIOT, BASE, 0, oem_);
      cksum.Append(Le(BASE, 2));
      oem, length, handleOffset, nodes, handles := oem_, BASE, BASE, [], [];
      CongruentSame(cksum.total, Fixed(oem_) + Sum(Le(BASE, 4)) + 0 + Sum(Concat([])));
      checksum, checksumByte := cksum, 0;
      new;
      checksumByte := checksum.Value();
    }

    /** The header of the emitted table holds what the caller gave, and the number of nodes added. */
    lemma HeaderHolds()
      requires Valid()
      ensures StartsAs(Emitted(), "VIOT", 1, oem) && |Emitted()| >= 48
      ensures Field(Emitted(), 36, 2) == |nodes| && Field(Emitted(), 38, 2) == 48 && Field(Emitted(), 40, 8) == 0
    {
      hide Le, Concat, Field, Sum, Congruent, StartsAs, Header;
      NodesFit(nodes, 2, 2);
      var front := ViotHeader(oem, length, checksumByte, |nodes|);
      var more := Le(|nodes|, 2) + Le(BASE, 2) + Le(0, 8);
      assert Emitted() == Header(VIOT, length, checksumByte, oem) + (more + Concat(nodes));
      SignatureIs();
      TableStarts(VIOT, length, checksumByte, oem, more + Concat(nodes), "VIOT");
      ViotHeaderLayout(oem, length, checksumByte, |nodes|);
      FieldInFront(front, Concat(nodes), 36, 2);
      FieldInFront(front, Concat(nodes), 38, 2);
      FieldInFront(front, Concat(nodes), 40, 8);
    }

    /** The bytes sum to zero exactly up to 255 nodes. */
    lemma SumsToZeroIff()
      requires Valid()
      ensures ZeroSum(Emitted()) <==> |nodes| < 256
    {
      hide Le, Fixed, UpperBytes, Sum, Congruent;
      ViotHeaderSum(oem, length, checksumByte, |nodes|);
      SumConcat(ViotHeader(oem, length, checksumByte, |nodes|), Concat(nodes));
      CountGap(|nodes|, 2);
      GapIff(checksum.total, checksumByte, Fixed(oem) + Sum(Le(length, 4)) + Sum(Concat(nodes)), |nodes|,
             Sum(Le(|nodes|, 2)), UpperBytes(|nodes|, 2));
      if |nodes| < 256 {
        SmallCounts(|nodes|, 2);
      } else {
        MediumCounts(|nodes|, 2);
      }
    }

    /** Nodes always fit their length fields, so they can always be read back. */
    lemma ReadsBack()
      requires Valid()
      ensures Walk(Emitted()[BASE..], 2, 2) == Some(nodes)
    {
      assert Emitted()[BASE..] == Concat(nodes);
      Powers();
      forall i | 0 <= i < |nodes| ensures |nodes[i]| < 0x1_0000 {
        NodeAt(ViotHeader(oem, length, checksumByte, |nodes|), nodes, i);
      }
      WalkExact(nodes, 2, 2);
    }

    /** A handle, once returned, is where its node starts in the emitted table, for ever. */
    lemma HandleStays(j: nat)
      requires Valid() && j < |nodes|
      ensures Holds(Emitted(), handles[j], nodes[j])
    {
      HandleHolds(ViotHeader(oem, length, checksumByte, |nodes|), nodes, handles, j);
    }

    /** A handle stored in node `i` leads to the node it was issued for. */
    lemma Reaches(i: nat, at: nat, j: nat)
      requires Valid() && i < |nodes| && j < |nodes|
      requires at + 2 <= |nodes[i]| && nodes[i][at..at + 2] == Le(handles[j], 2)
      ensures handles[i] + at + 2 <= |Emitted()|
      ensures Holds(Emitted(), Field(Emitted(), handles[i] + at, 2), nodes[j])
    {
      hide Le;
      Powers();
      assert Announces(nodes[j], 2, 2);
      FollowHandle(ViotHeader(oem, length, checksumByte, |nodes|), nodes, handles, i, at, 2, j);
    }

    /** Whoever follows the translation offset of an endpoint finds the node it was issued for. */
    lemma EndpointReaches(i: nat, n: Node, j: nat)
      requires Valid() && i < |nodes| && j < |nodes| && (n.PciRange? || n.MmioEndpoint?)
      requires nodes[i] == EncodeNode(n) && n.handle == handles[j]
      ensures handles[i] + 18 <= |Emitted()| && Holds(Emitted(), Field(Emitted(), handles[i] + 16, 2), nodes[j])
    {
      hide Valid, Le, PciRangeNode, MmioEndpointNode;
      Reaches(i, 16, j);
    }

    method UpdateHeader(sum: Byte, len: nat)
      requires checksum.Valid() && length + len < TWO32
      modifies this`length, this`checksumByte, checksum
      ensures checksum.Valid() && length == old(length) + len
      ensures checksum.total == old(checksum.total) + sum + Sum(Le(length, 4)) - Sum(Le(old(length), 4)) + 1
      ensures (checksum.total + checksumByte) % 256 == 0
    {
      hide Le;
      var oldLen := length;
      var newLen := len + oldLen;
      length := newLen;
      checksum.Delete(Le(oldLen, 4));
      checksum.Append(Le(newLen, 4));
      checksum.Add(sum);
      checksum.Add(1);
      checksumByte := checksum.Value();
    }

    /** Handles are 16 bits wide, so the table must stay below 2^16 bytes. */
    method AddNode(node: Bytes, len: nat) returns (handle: nat)
      requires Valid() && len == |node| >= 16 && Announces(node, 2, 2) && handleOffset + len < 0x1_0000
      modifies this, checksum
      ensures Valid() && nodes == old(nodes) + [node] && length == old(length) + len
      ensures handle == Offset(BASE, nodes, |old(nodes)|)
      ensures handles == old(handles) + [handle]
    {
      hide Le, Fixed, Sum, Concat, Congruent;
      ConcatAppend(nodes, node);
      SumConcat(Concat(nodes), node);
      ghost var before := Fixed(oem) + Sum(Le(length, 4)) + |nodes| + Sum(Concat(nodes));
      handle := handleOffset;
      var sum := U8Sum(node);
      UpdateHeader(sum, len);
      CongruentShift(old(checksum.total), sum, before, Sum(node), checksum.total - old(checksum.total) - sum);
      handleOffset := handleOffset + len;
      HandlesGrow(BASE, nodes, handles, node);
      nodes, handles := nodes + [node], handles + [handle];
      assert nodes[..|old(nodes)|] == old(nodes);
    }

    method AddPciRange(first: PciDevice, last: PciDevice, handle: nat)
      requires Valid() && ValidPci(first) && ValidPci(last) && handleOffset + 24 < 0x1_0000
      modifies this, checksum
      ensures Valid() && nodes == old(nodes) + [PciRangeNode(first, last, handle)]
      ensures old(handles) <= handles
    {
      var _ := AddNode(PciRangeNode(first, last, handle), 24);
    }

    method AddMmioEndpoint(endpoint: nat, baseAddr: nat, handle: nat)
      requires Valid() && handleOffset + 24 < 0x1_0000
      modifies this, checksum
      ensures Valid() && nodes == old(nodes) + [MmioEndpointNode(endpoint, baseAddr, handle)]
      ensures old(handles) <= handles
    {
      var _ := AddNode(MmioEndpointNode(endpoint, baseAddr, handle), 24);
    }

    method AddVirtioPciIommu(d: PciDevice) returns (handle: nat)
      requires Valid() && ValidPci(d) && handleOffset + 16 < 0x1_0000
      modifies this, checksum
      ensures Valid() && nodes == old(nodes) + [VirtioPciNode(d)]
      ensures handle == Offset(BASE, nodes, |old(nodes)|)
      ensures handles == old(handles) + [handle]
    {
      handle := AddNode(VirtioPciNode(d), 16);
    }

    method AddVirtioMmioIommu(baseAddr: nat) returns (handle: nat)
      requires Valid() && handleOffset + 16 < 0x1_0000
      modifies this, checksum
      ensures Valid() && nodes == old(nodes) + [VirtioMmioNode(baseAddr)] && length == old(length) + 16
      ensures handle == Offset(BASE, nodes, |old(nodes)|)
      ensures handles == old(handles) + [handle]
    {
      handle := AddNode(VirtioMmioNode(baseAddr), 16);
    }

    method ToAmlBytes() returns (r: Bytes)
      requires Valid()
      ensures r == Emitted() && |r| == length
      ensures ZeroSum(r) <==> |nodes| < 256
    {
      hide Le, Sum;
      r := EmitNodes(ViotHeader(oem, length, checksumByte, |nodes|), nodes);
      SumsToZeroIff();
    }
  }

  /** 256 additions to a new table leave a checksum that no longer matches. */
  method TooManyNodes(oem: Oem) returns (t: Viot)
    requires ValidOem(oem)
    ensures t.Valid() && |t.nodes| == 256 && !ZeroSum(t.Emitted())
  {
    hide Le, Sum, Concat, Congruent;
    t := new Viot(oem);
    for i := 0 to 256
      invariant t.Valid() && fresh(t) && fresh(t.checksum) && |t.nodes| == i && t.length == BASE + 16 * i
    {
      var _ := t.AddVirtioMmioIommu(0);
    }
    t.SumsToZeroIff();
  }
}
